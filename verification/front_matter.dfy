/** Front-matter extraction (`Indexer.getMetadata` and its helpers): the
    block between the first two `---` lines of a page is read as `key: value`
    lines, and the recognised keys become the page's metadata. */
module FrontMatter {
  import opened Results
  import opened JavaStrings
  import opened Sequences

  /** A page's metadata: `pageName` plus whatever of `title`, `date` and
      `draft` the front matter supplies. */
  type Metadata = map<string, string>

  /** The front-matter keys `addToMeta` keeps. */
  const RecognisedKeys: set<string> := {"title", "date", "draft"}

  /** Every key a metadata map can hold. */
  const MetadataKeys: set<string> := {"pageName", "title", "date", "draft"}

  // ---------------------------------------------------------------------
  // Locating the block: `content.split("(?m)^--- *$", 3)[1]`
  // ---------------------------------------------------------------------

  /** The line terminators `^` and `$` recognise in MULTILINE mode:
      `\n`, `\r`, U+0085, U+2028 and U+2029. */
  predicate IsLineTerminator(c: char) {
    c == '\n' || c == '\r' || c as int == 0x85 || c as int == 0x2028 || c as int == 0x2029
  }

  /** The number of spaces starting at index `j`. */
  function SpaceRun(s: string, j: nat): (n: nat)
    requires j <= |s|
    ensures j + n <= |s|
    ensures forall i :: j <= i < j + n ==> s[i] == ' '
    ensures j + n < |s| ==> s[j + n] != ' '
    decreases |s| - j
  {
    if j < |s| && s[j] == ' ' then 1 + SpaceRun(s, j + 1) else 0
  }

  /** `^--- *$` has a match starting at index `i`: `i` starts a line, three
      dashes follow, and after them (and the greedy run of spaces) comes a
      line terminator or the end of the text. Since a space is not a line
      terminator, the only candidate match takes every following space. */
  predicate IsDelimiterAt(s: string, i: nat) {
    && i + 3 <= |s|
    && s[i] == '-' && s[i + 1] == '-' && s[i + 2] == '-'
    && (i == 0 || IsLineTerminator(s[i - 1]))
    && var j := i + 3 + SpaceRun(s, i + 3);
       j == |s| || IsLineTerminator(s[j])
  }

  /** Where the delimiter match starting at `i` ends. */
  function DelimiterEnd(s: string, i: nat): (e: nat)
    requires IsDelimiterAt(s, i)
    ensures i + 3 <= e <= |s|
  {
    i + 3 + SpaceRun(s, i + 3)
  }

  /** No delimiter match starts anywhere in `s`. */
  ghost predicate NoDelimiter(s: string) {
    forall j: nat :: j <= |s| ==> !IsDelimiterAt(s, j)
  }

  /** `Matcher.find` continuing at index `from`: the leftmost delimiter match
      that starts at or after `from`. */
  function FindDelimiter(s: string, from: nat): (r: Option<nat>)
    requires from <= |s|
    ensures r.Some? ==> from <= r.value <= |s| && IsDelimiterAt(s, r.value)
    ensures r.Some? ==> forall j :: from <= j < r.value ==> !IsDelimiterAt(s, j)
    ensures r.None? ==> forall j :: from <= j <= |s| ==> !IsDelimiterAt(s, j)
    decreases |s| - from
  {
    if IsDelimiterAt(s, from) then Some(from)
    else if from == |s| then None
    else FindDelimiter(s, from + 1)
  }

  /** The front-matter block, element 1 of `split(regex, 3)`: the text
      between the first and the second delimiter match; everything after the
      first match when there is no second; and, when there is no match at
      all, the empty string the `catch` leaves in place after indexing the
      one-element array fails. */
  function FrontMatterBlock(content: string): (block: string)
    ensures NoDelimiter(content) ==> block == ""
    ensures |block| <= |content|
  {
    match FindDelimiter(content, 0)
    case None => ""
    case Some(first) =>
      var start := DelimiterEnd(content, first);
      match FindDelimiter(content, start)
      case None => content[start..]
      case Some(second) => content[start..second]
  }

  /** Spaces counted inside `t` are the spaces counted at the same place of
      a text `s` that contains `t` at offset `off`, provided the run cannot
      leave `t`: `t` ends `s`, or `t` ends in a non-space after `j`. */
  lemma {:induction false} SpaceRunShift(s: string, t: string, off: nat, j: nat)
    requires off + |t| <= |s| && j <= |t|
    requires forall i :: 0 <= i < |t| ==> s[off + i] == t[i]
    requires off + |t| == |s| || (j < |t| && t[|t| - 1] != ' ')
    ensures SpaceRun(s, off + j) == SpaceRun(t, j)
    decreases |t| - j
  {
    if j < |t| && t[j] == ' ' {
      assert s[off + j] == ' ';
      SpaceRunShift(s, t, off, j + 1);
    } else if j < |t| {
      assert s[off + j] != ' ';
    }
  }

  /** A delimiter match in `s` at a place inside an embedded `t` is a
      delimiter match of `t` on its own, when `t` ends `s` or ends with a
      line terminator. */
  lemma DelimiterShift(s: string, t: string, off: nat, k: nat)
    requires off + |t| <= |s|
    requires forall i :: 0 <= i < |t| ==> s[off + i] == t[i]
    requires off + |t| == |s| || (0 < |t| && IsLineTerminator(t[|t| - 1]) && k < |t|)
    requires 0 < k <= |t|
    ensures IsDelimiterAt(s, off + k) ==> IsDelimiterAt(t, k)
  {
    if IsDelimiterAt(s, off + k) {
      assert k + 3 <= |t| by {
        if off + |t| != |s| {
          assert s[off + |t| - 1] == t[|t| - 1];
        }
      }
      assert t[k] == '-' && t[k + 1] == '-' && t[k + 2] == '-' by {
        assert s[off + k] == t[k] && s[off + k + 1] == t[k + 1] && s[off + k + 2] == t[k + 2];
      }
      assert t[k - 1] == s[off + k - 1];
      if off + |t| != |s| {
        assert k + 3 < |t|;
      }
      SpaceRunShift(s, t, off, k + 3);
      var jt := k + 3 + SpaceRun(t, k + 3);
      if jt < |t| {
        assert s[off + jt] == t[jt];
      }
    }
  }

  /** Text without a `-` holds no delimiter line. */
  lemma NoDashNoDelimiter(s: string)
    requires '-' !in s
    ensures NoDelimiter(s)
  {
    forall j: nat | j <= |s| ensures !IsDelimiterAt(s, j) {
      if j < |s| { assert s[j] != '-'; }
    }
  }

  /** `find` skips every place that starts no match. */
  lemma {:induction false} FindDelimiterSkips(s: string, from: nat, at: nat)
    requires from <= at <= |s| && IsDelimiterAt(s, at)
    requires forall j :: from <= j < at ==> !IsDelimiterAt(s, j)
    ensures FindDelimiter(s, from) == Some(at)
    decreases at - from
  {
    if from < at {
      FindDelimiterSkips(s, from + 1, at);
    }
  }

  /** The block in general: when `f` is the first delimiter match and `s`
      the first one after it ends, the block is the text between them. */
  lemma BlockBetweenFirstTwo(content: string, f: nat, s: nat)
    requires f <= |content| && IsDelimiterAt(content, f)
    requires forall j :: 0 <= j < f ==> !IsDelimiterAt(content, j)
    requires DelimiterEnd(content, f) <= s <= |content| && IsDelimiterAt(content, s)
    requires forall j :: DelimiterEnd(content, f) <= j < s ==> !IsDelimiterAt(content, j)
    ensures FrontMatterBlock(content) == content[DelimiterEnd(content, f)..s]
  {
    FindDelimiterSkips(content, 0, f);
    FindDelimiterSkips(content, DelimiterEnd(content, f), s);
  }

  /** When `f` is the only delimiter match that starts outside the match
      itself, the block is everything after that match. */
  lemma BlockAfterOnlyOne(content: string, f: nat)
    requires f <= |content| && IsDelimiterAt(content, f)
    requires forall j :: 0 <= j < f ==> !IsDelimiterAt(content, j)
    requires forall j :: DelimiterEnd(content, f) <= j <= |content| ==> !IsDelimiterAt(content, j)
    ensures FrontMatterBlock(content) == content[DelimiterEnd(content, f)..]
  {
    FindDelimiterSkips(content, 0, f);
  }

  /** A `---` line that starts the text and ends at a line terminator. */
  lemma OpeningDelimiter(content: string, rest: string)
    requires content == "---" + rest
    requires rest == [] || IsLineTerminator(rest[0])
    ensures IsDelimiterAt(content, 0) && DelimiterEnd(content, 0) == 3
    ensures FindDelimiter(content, 0) == Some(0)
  {
    if rest != [] {
      assert content[3] == rest[0];
    }
    assert SpaceRun(content, 3) == 0;
  }

  /** No match starts inside an embedded `mid` that starts and ends with a
      line terminator and holds no match of its own. */
  lemma NoDelimiterInside(content: string, mid: string, off: nat)
    requires off + |mid| <= |content| && 0 < |mid|
    requires content[off..off + |mid|] == mid
    requires IsLineTerminator(mid[0]) && IsLineTerminator(mid[|mid| - 1])
    requires NoDelimiter(mid)
    ensures forall j :: off <= j < off + |mid| ==> !IsDelimiterAt(content, j)
  {
    forall j | off <= j < off + |mid|
      ensures !IsDelimiterAt(content, j)
    {
      assert forall i :: 0 <= i < |mid| ==> content[off + i] == mid[i];
      if j == off {
        assert content[off] == mid[0];
      } else {
        DelimiterShift(content, mid, off, j - off);
      }
    }
  }

  /** The block of a page written as a `---` line, the front matter `fm`,
      a second `---` line and the body: exactly the lines between the two
      delimiters, with the line breaks that surround them. */
  lemma FrontMatterBlockBetween(fm: string, body: string)
    requires NoDelimiter("\n" + fm + "\n")
    requires body == [] || IsLineTerminator(body[0])
    ensures FrontMatterBlock("---" + "\n" + fm + "\n" + "---" + body) == "\n" + fm + "\n"
  {
    var mid := "\n" + fm + "\n";
    var tail := "---" + body;
    var content := "---" + (mid + tail);
    assert content == "---" + "\n" + fm + "\n" + "---" + body;
    var second := 3 + |mid|;
    OpeningDelimiter(content, mid + tail);
    assert content[3..second] == mid;
    NoDelimiterInside(content, mid, 3);
    assert content[second..] == tail;
    SecondDelimiter(content, second, body);
    FindDelimiterSkips(content, 3, second);
  }

  /** A `---` line that starts after a line terminator at `at` and ends at
      a line terminator or the end of the text. */
  lemma SecondDelimiter(content: string, at: nat, body: string)
    requires 0 < at <= |content| && IsLineTerminator(content[at - 1])
    requires content[at..] == "---" + body
    requires body == [] || IsLineTerminator(body[0])
    ensures IsDelimiterAt(content, at)
  {
    assert content[at] == '-' && content[at + 1] == '-' && content[at + 2] == '-' by {
      assert content[at..][0] == '-' && content[at..][1] == '-' && content[at..][2] == '-';
    }
    if body != [] {
      assert content[at + 3] == content[at..][3] == body[0];
    }
    assert SpaceRun(content, at + 3) == 0;
  }

  /** A page with a single `---` line: the block is everything after it. */
  lemma FrontMatterBlockAfterOnly(rest: string)
    requires NoDelimiter(rest)
    requires rest == [] || IsLineTerminator(rest[0])
    ensures FrontMatterBlock("---" + rest) == rest
  {
    var content := "---" + rest;
    if rest == [] {
      assert SpaceRun(content, 3) == 0;
    } else {
      assert content[3] == rest[0];
      assert SpaceRun(content, 3) == 0;
    }
    assert IsDelimiterAt(content, 0);
    assert FindDelimiter(content, 0) == Some(0);
    forall j | 3 <= j <= |content|
      ensures !IsDelimiterAt(content, j)
    {
      if j == 3 {
        if rest != [] {
          assert content[3] == rest[0];
        }
      } else {
        DelimiterShift(content, rest, 3, j - 3);
      }
    }
    assert FindDelimiter(content, 3).None?;
    assert content[3..] == rest;
  }

  // ---------------------------------------------------------------------
  // Lines: `frontMatter.split("(\\r\\n|\\r|\\n)")`
  // ---------------------------------------------------------------------

  /** A character the line-splitting pattern breaks on. */
  predicate IsBreak(c: char) {
    c == '\n' || c == '\r'
  }

  /** The first break at or after index `j`, or `|s|` when there is none. */
  function NextBreak(s: string, j: nat): (k: nat)
    requires j <= |s|
    ensures j <= k <= |s|
    ensures forall i :: j <= i < k ==> !IsBreak(s[i])
    ensures k < |s| ==> IsBreak(s[k])
    decreases |s| - j
  {
    if j == |s| || IsBreak(s[j]) then j else NextBreak(s, j + 1)
  }

  /** A line as `split` returns it: no break inside. */
  predicate IsLine(l: string) {
    forall i :: 0 <= i < |l| ==> !IsBreak(l[i])
  }

  /** The pieces between the matches of `\r\n|\r|\n`; the alternation is
      tried left to right, so `\r\n` is one terminator. Java's `split`
      also drops trailing empty pieces, which `CollectEntries` skips anyway
      (`TrailingEmptyLinesIgnored`). */
  function SplitLines(s: string): (lines: seq<string>)
    ensures |lines| > 0
    ensures forall i :: 0 <= i < |lines| ==> IsLine(lines[i])
    decreases |s|
  {
    var k := NextBreak(s, 0);
    if k == |s| then [s]
    else if s[k] == '\r' && k + 1 < |s| && s[k + 1] == '\n' then [s[..k]] + SplitLines(s[k + 2..])
    else [s[..k]] + SplitLines(s[k + 1..])
  }

  /** A line terminator the splitting pattern accepts. */
  predicate IsTerminator(t: string) {
    t == "\n" || t == "\r\n" || t == "\r"
  }

  /** Lines joined, the `i`-th followed by the terminator `terms[i]`. */
  function JoinLines(lines: seq<string>, terms: seq<string>): string
    requires |lines| == |terms| + 1
  {
    if |terms| == 0 then lines[0]
    else lines[0] + terms[0] + JoinLines(lines[1..], terms[1..])
  }

  /** A `\r` ending line `i`, an empty line `i + 1` and a `\n` ending that
      line would read as one `\r\n`: joined lines are read back only when
      that does not happen. */
  predicate Unambiguous(lines: seq<string>, terms: seq<string>)
    requires |lines| == |terms| + 1
  {
    forall i :: 0 <= i < |terms| - 1 && terms[i] == "\r" && lines[i + 1] == "" ==> terms[i + 1] != "\n"
  }

  /** A line, its terminator and what follows split as that line and the
      split of what follows, unless a `\r` is followed by `\n`. */
  lemma SplitLinesCons(l: string, term: string, rest: string)
    requires IsLine(l) && IsTerminator(term)
    requires term == "\r" ==> rest == [] || rest[0] != '\n'
    ensures SplitLines(l + term + rest) == [l] + SplitLines(rest)
  {
    var s := l + term + rest;
    assert NextBreak(s, 0) == |l| by {
      assert forall i :: 0 <= i < |l| ==> s[i] == l[i];
      assert s[|l|] == term[0];
    }
    assert s[..|l|] == l;
    if term == "\r\n" {
      assert s[|l| + 2..] == rest;
    } else {
      assert s[|l| + 1..] == rest;
      if term == "\r" && |l| + 1 < |s| {
        assert s[|l| + 1] == rest[0];
      }
    }
  }

  /** Joined lines start with `\n` only when the first line is empty and
      ended by `\n`. */
  lemma JoinLinesStart(lines: seq<string>, terms: seq<string>)
    requires |lines| == |terms| + 1
    requires IsLine(lines[0])
    requires |terms| > 0 ==> IsTerminator(terms[0])
    requires lines[0] == "" && |terms| > 0 ==> terms[0] != "\n"
    ensures JoinLines(lines, terms) == [] || JoinLines(lines, terms)[0] != '\n'
  {
    if |terms| > 0 {
      var s := JoinLines(lines, terms);
      assert s == lines[0] + terms[0] + JoinLines(lines[1..], terms[1..]);
      if lines[0] != "" {
        assert s[0] == lines[0][0];
      } else {
        assert s[0] == terms[0][0];
      }
    }
  }

  /** Splitting undoes joining, whichever of the three terminators ends
      each line. */
  lemma {:induction false} SplitJoinLines(lines: seq<string>, terms: seq<string>)
    requires |lines| == |terms| + 1
    requires forall i :: 0 <= i < |lines| ==> IsLine(lines[i])
    requires forall i :: 0 <= i < |terms| ==> IsTerminator(terms[i])
    requires Unambiguous(lines, terms)
    ensures SplitLines(JoinLines(lines, terms)) == lines
    decreases |terms|
  {
    if |terms| == 0 {
      assert NextBreak(lines[0], 0) == |lines[0]|;
    } else {
      var rest := JoinLines(lines[1..], terms[1..]);
      assert Unambiguous(lines[1..], terms[1..]) by {
        forall i | 0 <= i < |terms[1..]| - 1 && terms[1..][i] == "\r" && lines[1..][i + 1] == ""
          ensures terms[1..][i + 1] != "\n"
        {
          assert terms[i + 1] == "\r" && lines[i + 2] == "";
        }
      }
      SplitJoinLines(lines[1..], terms[1..]);
      if terms[0] == "\r" {
        JoinLinesStart(lines[1..], terms[1..]);
      }
      SplitLinesCons(lines[0], terms[0], rest);
      assert lines == [lines[0]] + lines[1..];
    }
  }

  // ---------------------------------------------------------------------
  // Entries: `entry.split(":", 2)`, `removeSurroundingQuotes`, `addToMeta`
  // ---------------------------------------------------------------------

  /** A line split at its first `:` into the trimmed key and the raw value,
      or `None` when the line is skipped: no `:`, or a blank key or value. */
  function ParseEntry(line: string): (r: Option<(string, string)>)
    ensures r.Some? ==> ':' in line
  {
    match SplitAtFirst(line, ':')
    case None => None
    case Some((key, value)) =>
      if !IsBlank(key) && !IsBlank(value) then Some((Trim(key), value)) else None
  }

  /** A line written as a colon-free key, `:` and a value is read as that
      trimmed key and the whole value, colons in the value included; a
      blank key or value makes the line skipped. */
  lemma ParseEntryOf(key: string, value: string)
    requires ':' !in key
    ensures ParseEntry(key + ":" + value) ==
      if !IsBlank(key) && !IsBlank(value) then Some((Trim(key), value)) else None
  {
    var line := key + ":" + value;
    assert line[|key|] == ':';
    assert line[..|key|] == key && line[|key| + 1..] == value;
    SplitAtFirstOf(line, ':', |key|);
  }

  /** The trimmed value `"` or `'`: it starts and ends with the same quote,
      and `substring(1, 0)` throws. */
  predicate IsLoneQuote(value: string) {
    value == "\"" || value == "'"
  }

  /** At least two characters, wrapped in a matching pair of `"` or `'`. */
  predicate IsQuoted(value: string) {
    |value| >= 2 && (value[0] == '"' || value[0] == '\'') && value[|value| - 1] == value[0]
  }

  /** `removeSurroundingQuotes`: one matching outer pair of `"` or `'` is
      removed and anything else is returned unchanged; a lone quote makes
      `substring(1, 0)` throw. */
  function RemoveSurroundingQuotes(value: string): (r: Result<string>)
    ensures r.Err? <==> IsLoneQuote(value)
    ensures r.Err? ==> r.error == StringIndexOutOfBounds(1, 0, 1)
    ensures r.Ok? && IsQuoted(value) ==> value == [value[0]] + r.value + [value[0]]
    ensures r.Ok? && !IsQuoted(value) ==> r.value == value
  {
    if (|value| > 0 && value[0] == '"' && value[|value| - 1] == '"')
      || (|value| > 0 && value[0] == '\'' && value[|value| - 1] == '\'')
    then
      var r := Substring(value, 1, |value| - 1);
      assert r.Ok? ==> value == [value[0]] + r.value + [value[0]];
      r
    else Ok(value)
  }

  /** Quoting a value and removing the quotes gives it back, whatever the
      value contains: only the outer pair is removed. */
  lemma QuoteRoundTrip(q: char, x: string)
    requires q == '"' || q == '\''
    ensures RemoveSurroundingQuotes([q] + x + [q]) == Ok(x)
  {
    var v := [q] + x + [q];
    assert IsQuoted(v);
    assert v[1..|v| - 1] == x;
  }

  /** `addToMeta`: a recognised key is stored, overwriting an earlier value;
      any other key is dropped. */
  function AddToMeta(key: string, value: string, md: Metadata): (r: Metadata)
    ensures key in RecognisedKeys ==> key in r && r[key] == value
    ensures forall k :: k != key ==> (k in r <==> k in md)
    ensures forall k :: k in md && k != key ==> r[k] == md[k]
    ensures key !in RecognisedKeys ==> r == md
  {
    if key == "title" || key == "date" || key == "draft" then md[key := value] else md
  }

  /** A line whose trimmed value is a lone quote: reading it throws. */
  predicate Crashes(line: string) {
    match ParseEntry(line)
    case Some((_, raw)) => IsLoneQuote(Trim(raw))
    case None => false
  }

  /** One pass of the loop of `getMetadata`: a `key: value` line has its
      trimmed value unquoted and offered to `addToMeta`; any other line is
      skipped. Unquoting a lone quote throws. */
  function ReadLine(line: string, md: Metadata): (r: Result<Metadata>)
    ensures r.Err? <==> Crashes(line)
    ensures ParseEntry(line).None? ==> r == Ok(md)
  {
    match ParseEntry(line)
    case None => Ok(md)
    case Some((key, raw)) =>
      var value :- RemoveSurroundingQuotes(Trim(raw));
      Ok(AddToMeta(key, value, md))
  }

  /** The loop of `getMetadata` over the lines of the block, from `md`.
      The first crashing line ends it with the exception. */
  function CollectEntries(lines: seq<string>, md: Metadata): Result<Metadata>
    decreases |lines|
  {
    if lines == [] then Ok(md)
    else
      var md' :- ReadLine(lines[0], md);
      CollectEntries(lines[1..], md')
  }

  /** Reference reading of the lines, independent of the loop: the value of
      `key` is the one given by the LAST line that sets it, if any. */
  function LastValue(lines: seq<string>, key: string): Option<string> {
    if lines == [] then None
    else
      var later := LastValue(lines[1..], key);
      if later.Some? then later
      else match ParseEntry(lines[0])
        case Some((k, raw)) =>
          if k == key && !IsLoneQuote(Trim(raw))
          then Some(RemoveSurroundingQuotes(Trim(raw)).value)
          else None
        case None => None
  }

  /** `r` is what reading `lines` on top of `md` should give: recognised
      keys take their last value from the lines, other keys keep theirs from
      `md`, and nothing else is present. */
  ghost predicate Overlays(r: Metadata, md: Metadata, lines: seq<string>) {
    forall k ::
      && (k in r <==> k in md || (k in RecognisedKeys && LastValue(lines, k).Some?))
      && (k in r ==> r[k] == if k in RecognisedKeys && LastValue(lines, k).Some? then LastValue(lines, k).value else md[k])
  }

  /** The loop fails exactly when some line crashes. */
  lemma {:induction false} CollectEntriesFails(lines: seq<string>, md: Metadata)
    ensures CollectEntries(lines, md).Err? <==> exists i :: 0 <= i < |lines| && Crashes(lines[i])
    decreases |lines|
  {
    if lines != [] {
      ExistsCons(lines, Crashes);
      var step := ReadLine(lines[0], md);
      if step.Ok? {
        CollectEntriesFails(lines[1..], step.value);
      }
    }
  }

  /** When the loop succeeds it yields the overlay of the lines on `md`:
      last write wins, unrecognised keys are dropped. */
  lemma {:induction false} CollectEntriesOverlays(lines: seq<string>, md: Metadata)
    requires CollectEntries(lines, md).Ok?
    ensures Overlays(CollectEntries(lines, md).value, md, lines)
    decreases |lines|
  {
    if lines != [] {
      var r := CollectEntries(lines, md).value;
      var rest := lines[1..];
      var md' := ReadLine(lines[0], md).value;
      CollectEntriesOverlays(rest, md');
      match ParseEntry(lines[0])
      case None =>
        forall k ensures LastValue(lines, k) == LastValue(rest, k) {
        }
      case Some((key, raw)) =>
        var value := RemoveSurroundingQuotes(Trim(raw)).value;
        assert md' == AddToMeta(key, value, md);
        OverlayStep(r, md, lines, key, raw, value);
    }
  }

  /** One line of the loop, seen through `Overlays`. */
  lemma OverlayStep(r: Metadata, md: Metadata, lines: seq<string>, key: string, raw: string, value: string)
    requires lines != []
    requires ParseEntry(lines[0]) == Some((key, raw))
    requires !IsLoneQuote(Trim(raw))
    requires value == RemoveSurroundingQuotes(Trim(raw)).value
    requires Overlays(r, AddToMeta(key, value, md), lines[1..])
    ensures Overlays(r, md, lines)
  {
    var md' := AddToMeta(key, value, md);
    forall k
      ensures && (k in r <==> k in md || (k in RecognisedKeys && LastValue(lines, k).Some?))
              && (k in r ==> r[k] == if k in RecognisedKeys && LastValue(lines, k).Some? then LastValue(lines, k).value else md[k])
    {
      var later := LastValue(lines[1..], k);
      assert LastValue(lines, k) == if later.Some? then later else if k == key then Some(value) else None;
      assert k in r <==> k in md' || (k in RecognisedKeys && later.Some?);
    }
  }

  /** Empty lines at the end of the block change nothing, so dropping them,
      as Java's `split` does, does not either. */
  lemma {:induction false} TrailingEmptyLinesIgnored(lines: seq<string>, n: nat, md: Metadata)
    ensures CollectEntries(lines + seq(n, _ => ""), md) == CollectEntries(lines, md)
    decreases |lines| + n
  {
    var empties: seq<string> := seq(n, _ => "");
    if lines == [] {
      assert lines + empties == empties;
      if n > 0 {
        assert ParseEntry("") == None;
        assert empties[1..] == seq(n - 1, _ => "");
        TrailingEmptyLinesIgnored([], n - 1, md);
        assert [] + seq(n - 1, _ => "") == seq(n - 1, _ => "");
      }
    } else {
      assert (lines + empties)[0] == lines[0];
      assert (lines + empties)[1..] == lines[1..] + empties;
      var step := ReadLine(lines[0], md);
      if step.Ok? {
        TrailingEmptyLinesIgnored(lines[1..], n, step.value);
      }
    }
  }

  // ---------------------------------------------------------------------
  // getMetadata
  // ---------------------------------------------------------------------

  /** The lines `getMetadata` reads. */
  function FrontMatterLines(content: string): seq<string> {
    SplitLines(FrontMatterBlock(content))
  }

  /** `getMetadata`: `pageName` is always the supplied name; `title`, `date`
      and `draft` hold the last value the front matter gives them; nothing
      else is kept. It fails exactly when some line's trimmed value is a lone
      quote, because that exception is thrown outside the `try`. */
  function GetMetadata(content: string, pageName: string): (r: Result<Metadata>)
    ensures r.Err? <==> exists i :: 0 <= i < |FrontMatterLines(content)| && Crashes(FrontMatterLines(content)[i])
    ensures r.Ok? ==> "pageName" in r.value && r.value["pageName"] == pageName
    ensures r.Ok? ==> r.value.Keys <= MetadataKeys
    ensures r.Ok? ==> forall k :: k in RecognisedKeys ==>
      (k in r.value <==> LastValue(FrontMatterLines(content), k).Some?) &&
      (k in r.value ==> r.value[k] == LastValue(FrontMatterLines(content), k).value)
  {
    var lines := FrontMatterLines(content);
    var md := map["pageName" := pageName];
    CollectEntriesFails(lines, md);
    if CollectEntries(lines, md).Ok? then
      CollectEntriesOverlays(lines, md);
      CollectEntries(lines, md)
    else CollectEntries(lines, md)
  }

  // ---------------------------------------------------------------------
  // checkMetadata (diagnostics only)
  // ---------------------------------------------------------------------

  /** The kinds of warning `checkMetadata` logs. The date check relies on
      `ZonedDateTime.parse` and is not modelled. */
  datatype Warning = IncompleteMetadata | BlankValue | InvalidDraft

  /** The warnings one pass of the loop over the entries logs for the entry
      `key: value`: a blank value, and a `draft` value other than `true`
      and `false`. */
  function EntryWarnings(key: string, value: string): set<Warning> {
    (if IsBlank(value) then {BlankValue} else {})
    + (if key == "draft" && value != "true" && value != "false" then {InvalidDraft} else {})
  }

  /** The warnings `checkMetadata` would log for `md`: the size check, then
      the warnings of every entry; it never changes `md`. Summed over the
      entries, a blank value anywhere gives the blank warning, and only the
      `draft` entry can give the draft warning. */
  function MetadataWarnings(md: Metadata): (w: set<Warning>)
    ensures IncompleteMetadata in w <==> |md| != 4
    ensures BlankValue in w <==> exists k :: k in md && IsBlank(md[k])
    ensures InvalidDraft in w <==> "draft" in md && md["draft"] != "true" && md["draft"] != "false"
  {
    EntryWarningsIff(md);
    (if |md| != 4 then {IncompleteMetadata} else {}) + EntryWarningsOf(md)
  }

  /** The warnings of all entries of `md`, in any order. */
  function EntryWarningsOf(md: Metadata): set<Warning> {
    set k, x | k in md && x in EntryWarnings(k, md[k]) :: x
  }

  /** What the loop over the entries logs: the blank warning exactly when
      some value is blank, the draft warning exactly when the `draft` value
      is neither `true` nor `false`, and never the size warning. */
  lemma EntryWarningsIff(md: Metadata)
    ensures IncompleteMetadata !in EntryWarningsOf(md)
    ensures BlankValue in EntryWarningsOf(md) <==> exists k :: k in md && IsBlank(md[k])
    ensures InvalidDraft in EntryWarningsOf(md) <==> "draft" in md && md["draft"] != "true" && md["draft"] != "false"
  {
    if exists k :: k in md && IsBlank(md[k]) {
      var k :| k in md && IsBlank(md[k]);
      assert BlankValue in EntryWarnings(k, md[k]);
    }
    if "draft" in md && md["draft"] != "true" && md["draft"] != "false" {
      assert InvalidDraft in EntryWarnings("draft", md["draft"]);
    }
  }

  /** The "incomplete metadata" warning is logged exactly when one of
      `title`, `date` and `draft` is set by no line of the front matter. */
  lemma IncompleteIffMissingKey(content: string, pageName: string)
    requires GetMetadata(content, pageName).Ok?
    ensures IncompleteMetadata !in MetadataWarnings(GetMetadata(content, pageName).value)
      <==> forall k :: k in RecognisedKeys ==> LastValue(FrontMatterLines(content), k).Some?
  {
    CompleteIffAllKeys(GetMetadata(content, pageName).value);
  }

  /** The invalid-draft warning is logged exactly when the last line that
      sets `draft` gives it a value other than `true` and `false`. */
  lemma InvalidDraftIff(content: string, pageName: string)
    requires GetMetadata(content, pageName).Ok?
    ensures InvalidDraft in MetadataWarnings(GetMetadata(content, pageName).value)
      <==> match LastValue(FrontMatterLines(content), "draft")
           case Some(v) => v != "true" && v != "false"
           case None => false
  {
  }

  /** The blank-value warning is logged exactly when the page name is blank
      or the last value the front matter gives one of `title`, `date` and
      `draft` is blank (a value such as `""` is blank once unquoted). */
  lemma BlankValueIff(content: string, pageName: string)
    requires GetMetadata(content, pageName).Ok?
    ensures BlankValue in MetadataWarnings(GetMetadata(content, pageName).value)
      <==> IsBlank(pageName) || exists k :: k in RecognisedKeys && BlankLastValue(FrontMatterLines(content), k)
  {
    var md := GetMetadata(content, pageName).value;
    var lines := FrontMatterLines(content);
    if exists k :: k in md && IsBlank(md[k]) {
      var k :| k in md && IsBlank(md[k]);
      if k != "pageName" {
        assert k in RecognisedKeys && BlankLastValue(lines, k);
      }
    }
    if exists k :: k in RecognisedKeys && BlankLastValue(lines, k) {
      var k :| k in RecognisedKeys && BlankLastValue(lines, k);
      assert k in md && IsBlank(md[k]);
    }
  }

  /** The last value the lines give `key` exists and is blank. */
  predicate BlankLastValue(lines: seq<string>, key: string) {
    LastValue(lines, key).Some? && IsBlank(LastValue(lines, key).value)
  }

  /** A metadata map holds four entries exactly when it has every
      recognised key. */
  lemma CompleteIffAllKeys(md: Metadata)
    requires "pageName" in md && md.Keys <= MetadataKeys
    ensures |md| == 4 <==> RecognisedKeys <= md.Keys
  {
    assert |MetadataKeys| == 4;
    if RecognisedKeys <= md.Keys {
      assert md.Keys == MetadataKeys;
    } else {
      var k :| k in RecognisedKeys && k !in md;
      SubsetCardinality(md.Keys, MetadataKeys - {k});
      assert |MetadataKeys - {k}| == 3;
    }
  }

  lemma SubsetCardinality<T>(a: set<T>, b: set<T>)
    requires a <= b
    ensures |a| <= |b|
  {
    assert b == a + (b - a);
  }
}
