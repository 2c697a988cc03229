/** The few `java.lang.String` operations the indexer relies on, stated over
    `string`. A model `string` is a sequence of Unicode scalar values, so
    `|s|` counts code points, while Java's `s.length()` counts UTF-16 code
    units: that is `Utf16Length(s)`. Every index the indexer computes sits
    next to an ASCII character (a dot, a quote, the `.md` suffix), where
    slicing by code points and by code units cut the same text. */
module JavaStrings {
  import opened Results

  /** The number of UTF-16 code units of `c`: two for a code point beyond
      the Basic Multilingual Plane (a surrogate pair), one otherwise. */
  function Utf16Units(c: char): (n: nat)
    ensures n == 1 || n == 2
  {
    if c as int > 0xFFFF then 2 else 1
  }

  /** `String.length()`: the number of UTF-16 code units. */
  function Utf16Length(s: string): (n: nat)
    ensures |s| <= n <= 2 * |s|
    ensures (forall i :: 0 <= i < |s| ==> s[i] as int <= 0xFFFF) ==> n == |s|
  {
    if s == [] then 0 else Utf16Units(s[0]) + Utf16Length(s[1..])
  }

  /** `Character.isWhitespace`: the space, line and paragraph separators
      except the no-break spaces U+00A0, U+2007 and U+202F, plus the
      controls U+0009..U+000D and U+001C..U+001F. */
  predicate IsWhitespace(c: char) {
    var n := c as int;
    || 0x09 <= n <= 0x0D
    || 0x1C <= n <= 0x20
    || n == 0x1680
    || 0x2000 <= n <= 0x2006
    || 0x2008 <= n <= 0x200A
    || n == 0x2028 || n == 0x2029 || n == 0x205F || n == 0x3000
  }

  /** `String.isBlank`: empty, or white space only. */
  predicate IsBlank(s: string) {
    forall i :: 0 <= i < |s| ==> IsWhitespace(s[i])
  }

  /** `String.trim` removes every character up to and including U+0020,
      a different set from `IsWhitespace`. */
  predicate IsTrimmable(c: char) {
    c as int <= 0x20
  }

  /** The length of the longest trimmable prefix of `s`. */
  function LeadingTrimmable(s: string): (k: nat)
    ensures k <= |s|
    ensures forall i :: 0 <= i < k ==> IsTrimmable(s[i])
    ensures k < |s| ==> !IsTrimmable(s[k])
  {
    if |s| > 0 && IsTrimmable(s[0]) then 1 + LeadingTrimmable(s[1..]) else 0
  }

  /** The length of the longest trimmable suffix of `s`. */
  function TrailingTrimmable(s: string): (k: nat)
    ensures k <= |s|
    ensures forall i :: |s| - k <= i < |s| ==> IsTrimmable(s[i])
    ensures k < |s| ==> !IsTrimmable(s[|s| - 1 - k])
  {
    if |s| > 0 && IsTrimmable(s[|s| - 1]) then 1 + TrailingTrimmable(s[..|s| - 1]) else 0
  }

  /** `String.trim`: first the leading run is skipped, then the trailing run
      of what is left is cut off. The result is the part of `s` that starts
      after its trimmable prefix, ends before a trimmable suffix, and has no
      trimmable character at either end. */
  function Trim(s: string): (r: string)
    ensures LeadingTrimmable(s) + |r| <= |s|
    ensures r == s[LeadingTrimmable(s) .. LeadingTrimmable(s) + |r|]
    ensures forall i :: LeadingTrimmable(s) + |r| <= i < |s| ==> IsTrimmable(s[i])
    ensures r == [] <==> forall i :: 0 <= i < |s| ==> IsTrimmable(s[i])
    ensures r != [] ==> !IsTrimmable(r[0]) && !IsTrimmable(r[|r| - 1])
  {
    var st := LeadingTrimmable(s);
    var rest := s[st..];
    rest[..|rest| - TrailingTrimmable(rest)]
  }

  /** Trimming a string that has no trimmable character at either end
      returns it unchanged. */
  lemma TrimUntrimmed(s: string)
    requires s == [] || (!IsTrimmable(s[0]) && !IsTrimmable(s[|s| - 1]))
    ensures Trim(s) == s
  {
    if s != [] {
      assert LeadingTrimmable(s) == 0;
      assert TrailingTrimmable(s) == 0;
    }
  }

  /** `trim` is idempotent. */
  lemma TrimIdempotent(s: string)
    ensures Trim(Trim(s)) == Trim(s)
  {
    TrimUntrimmed(Trim(s));
  }

  /** `String.substring(begin, end)`, which throws when the bounds do not
      describe a slice of `s`. */
  function Substring(s: string, begin: int, end: int): (r: Result<string>)
    ensures r.Ok? <==> 0 <= begin <= end <= |s|
    ensures r.Ok? ==> |r.value| == end - begin && forall i :: begin <= i < end ==> r.value[i - begin] == s[i]
    ensures r.Err? ==> r.error == StringIndexOutOfBounds(begin, end, |s|)
  {
    if begin < 0 || end > |s| || begin > end then Err(StringIndexOutOfBounds(begin, end, |s|))
    else Ok(s[begin..end])
  }

  /** `String.indexOf(c)`, with `None` for Java's `-1`. */
  function IndexOf(s: string, c: char): (r: Option<nat>)
    ensures r.None? <==> c !in s
    ensures r.Some? ==> r.value < |s| && s[r.value] == c && c !in s[..r.value]
  {
    if |s| == 0 then None
    else if s[0] == c then Some(0)
    else match IndexOf(s[1..], c)
      case None => None
      case Some(i) =>
        assert s[..i + 1] == [s[0]] + s[1..][..i];
        Some(i + 1)
  }

  /** `String.lastIndexOf(c)`: `-1` when `c` does not occur, otherwise the
      index of its last occurrence. */
  function LastIndexOf(s: string, c: char): (r: int)
    ensures -1 <= r < |s|
    ensures r == -1 <==> c !in s
    ensures r >= 0 ==> s[r] == c && forall j :: r < j < |s| ==> s[j] != c
  {
    if |s| == 0 then -1
    else if s[|s| - 1] == c then |s| - 1
    else
      var r := LastIndexOf(s[..|s| - 1], c);
      assert r == -1 ==> s == s[..|s| - 1] + [s[|s| - 1]];
      r
  }

  /** `s.split(c, 2)` for a single separator character: `None` when `s` has
      one piece only, otherwise the text before and after the first `c`. */
  function SplitAtFirst(s: string, c: char): (r: Option<(string, string)>)
    ensures r.None? <==> c !in s
    ensures r.Some? ==> r.value.0 + [c] + r.value.1 == s && c !in r.value.0
  {
    match IndexOf(s, c)
    case None => None
    case Some(k) =>
      assert s == s[..k] + [c] + s[k + 1..];
      Some((s[..k], s[k + 1..]))
  }

  /** Splitting at the first occurrence of `c`, wherever it is, gives the
      text on either side of it. */
  lemma SplitAtFirstOf(s: string, c: char, k: nat)
    requires k < |s| && s[k] == c && c !in s[..k]
    ensures SplitAtFirst(s, c) == Some((s[..k], s[k + 1..]))
  {
    assert c in s;
  }

  /** `Character.toLowerCase` on the ASCII letters; every other character is
      kept. */
  function LowerAscii(c: char): char {
    if 'A' <= c <= 'Z' then (c as int + 32) as char else c
  }

  function ToLowerAscii(s: string): (r: string)
    ensures |r| == |s|
    ensures forall i :: 0 <= i < |s| ==> r[i] == LowerAscii(s[i])
  {
    seq(|s|, i requires 0 <= i < |s| => LowerAscii(s[i]))
  }
}
