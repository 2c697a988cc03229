/** A worked page in the style of the blog, read end to end by
    `getMetadata`: the quoted title loses its quotes, the body after the
    second `---` line is ignored, and the missing `date` stays missing. */
module FrontMatterExample {
  import opened Results
  import opened JavaStrings
  import opened FrontMatter

  /** The page: a `---` line, two front-matter lines, a `---` line and a
      body. */
  const TitleLine := "title: 'AdFind'"
  const DraftLine := "draft: false"
  const ExampleFm := TitleLine + "\n" + DraftLine
  const ExampleContent := "---" + "\n" + ExampleFm + "\n" + "---" + "\nText"

  /** The block is the two lines with the line breaks around them. */
  lemma ExampleBlock()
    ensures FrontMatterBlock(ExampleContent) == "\n" + ExampleFm + "\n"
  {
    assert '-' !in "\n" + ExampleFm + "\n" by {
      assert forall i :: 0 <= i < |TitleLine| ==> TitleLine[i] != '-';
      assert forall i :: 0 <= i < |DraftLine| ==> DraftLine[i] != '-';
    }
    NoDashNoDelimiter("\n" + ExampleFm + "\n");
    FrontMatterBlockBetween(ExampleFm, "\nText");
  }

  /** The block is the four lines joined with `\n`. */
  lemma ExampleJoin()
    ensures JoinLines(["", TitleLine, DraftLine, ""], ["\n", "\n", "\n"]) == "\n" + ExampleFm + "\n"
  {
    JoinLastTwo();
    JoinLastThree();
    assert ["", TitleLine, DraftLine, ""][1..] == [TitleLine, DraftLine, ""];
    assert ["\n", "\n", "\n"][1..] == ["\n", "\n"];
    assert "" + "\n" + (TitleLine + "\n" + (DraftLine + "\n")) == "\n" + ExampleFm + "\n";
  }

  lemma JoinLastTwo()
    ensures JoinLines([DraftLine, ""], ["\n"]) == DraftLine + "\n"
  {
    assert [DraftLine, ""][1..] == [""];
  }

  lemma JoinLastThree()
    ensures JoinLines([TitleLine, DraftLine, ""], ["\n", "\n"]) == TitleLine + "\n" + (DraftLine + "\n")
  {
    JoinLastTwo();
    assert [TitleLine, DraftLine, ""][1..] == [DraftLine, ""];
    assert ["\n", "\n"][1..] == ["\n"];
  }

  /** The block splits into an empty line, the two entries and an empty
      line. */
  lemma ExampleSplit()
    ensures SplitLines("\n" + ExampleFm + "\n") == ["", TitleLine, DraftLine, ""]
  {
    assert IsLine(TitleLine) && IsLine(DraftLine);
    SplitJoinLines(["", TitleLine, DraftLine, ""], ["\n", "\n", "\n"]);
    ExampleJoin();
  }

  lemma ExampleLines()
    ensures FrontMatterLines(ExampleContent) == ["", TitleLine, DraftLine, ""]
  {
    ExampleBlock();
    ExampleSplit();
  }

  /** The title line splits at its colon. */
  lemma ParseTitle()
    ensures ParseEntry(TitleLine) == Some(("title", " 'AdFind'"))
  {
    assert TitleLine == "title" + ":" + " 'AdFind'";
    assert !IsBlank("title") by { assert !IsWhitespace("title"[0]); }
    assert !IsBlank(" 'AdFind'") by { assert !IsWhitespace(" 'AdFind'"[1]); }
    ParseEntryOf("title", " 'AdFind'");
    TrimUntrimmed("title");
  }

  /** The trimmed title value loses its single quotes. */
  lemma UnquoteTitle()
    ensures RemoveSurroundingQuotes(Trim(" 'AdFind'")) == Ok("AdFind")
  {
    assert LeadingTrimmable(" 'AdFind'") == 1;
    assert " 'AdFind'"[1..] == "'AdFind'";
    assert TrailingTrimmable("'AdFind'") == 0;
    assert Trim(" 'AdFind'") == "'AdFind'";
    QuoteRoundTrip('\'', "AdFind");
    assert ['\''] + "AdFind" + ['\''] == "'AdFind'";
  }

  lemma ReadTitle(md: Metadata)
    ensures ReadLine(TitleLine, md) == Ok(md["title" := "AdFind"])
  {
    ParseTitle();
    UnquoteTitle();
  }

  lemma ParseDraft()
    ensures ParseEntry(DraftLine) == Some(("draft", " false"))
  {
    assert DraftLine == "draft" + ":" + " false";
    assert !IsBlank("draft") by { assert !IsWhitespace("draft"[0]); }
    assert !IsBlank(" false") by { assert !IsWhitespace(" false"[1]); }
    ParseEntryOf("draft", " false");
    TrimUntrimmed("draft");
  }

  /** The draft value has no quotes to lose. */
  lemma UnquoteDraft()
    ensures RemoveSurroundingQuotes(Trim(" false")) == Ok("false")
  {
    assert LeadingTrimmable(" false") == 1;
    assert " false"[1..] == "false";
    assert TrailingTrimmable("false") == 0;
    assert Trim(" false") == "false";
    assert "false"[0] == 'f';
  }

  lemma ReadDraft(md: Metadata)
    ensures ReadLine(DraftLine, md) == Ok(md["draft" := "false"])
  {
    ParseDraft();
    UnquoteDraft();
  }

  /** The loop over the four lines stores `title` and `draft`. */
  lemma ExampleEntries(md: Metadata)
    ensures CollectEntries(["", TitleLine, DraftLine, ""], md) == Ok(md["title" := "AdFind"]["draft" := "false"])
  {
    var md2 := md["title" := "AdFind"]["draft" := "false"];
    assert ReadLine("", md2) == Ok(md2);
    assert CollectEntries([""], md2) == Ok(md2);
    ReadDraft(md["title" := "AdFind"]);
    assert [DraftLine, ""][1..] == [""];
    assert CollectEntries([DraftLine, ""], md["title" := "AdFind"]) == Ok(md2);
    ReadTitle(md);
    assert [TitleLine, DraftLine, ""][1..] == [DraftLine, ""];
    assert CollectEntries([TitleLine, DraftLine, ""], md) == Ok(md2);
    assert ReadLine("", md) == Ok(md);
    assert ["", TitleLine, DraftLine, ""][1..] == [TitleLine, DraftLine, ""];
  }

  /** `getMetadata` of the page: its name, its title without quotes and its
      draft flag; no `date`, since no line sets it. */
  lemma ExamplePage()
    ensures GetMetadata(ExampleContent, "adfind")
      == Ok(map["pageName" := "adfind", "title" := "AdFind", "draft" := "false"])
  {
    ExampleLines();
    ExampleEntries(map["pageName" := "adfind"]);
  }

  /** A page whose only `---` line is its last line: the one delimiter match
      ends the page, so the block after it is empty. */
  lemma DelimiterLastLine()
    ensures IsDelimiterAt("abc\n---", 4)
    ensures FrontMatterBlock("abc\n---") == ""
  {
    var c := "abc\n---";
    assert SpaceRun(c, 7) == 0;
    assert DelimiterEnd(c, 4) == 7;
    assert forall j :: 0 <= j < 4 ==> !IsDelimiterAt(c, j) by {
      assert c[0] != '-' && c[1] != '-' && c[2] != '-' && c[3] != '-';
    }
    BlockAfterOnlyOne(c, 4);
  }
}
