/** File-name handling of the directory visitor `Indexer.PageFiles`: which
    files are pages, and the page name a file gives. */
module PageFiles {
  import opened Results
  import opened JavaStrings

  /** `extension`: the text after the last `.`, when that dot is not the
      first character; otherwise the empty string. */
  function Extension(fileName: string): (ext: string)
    ensures '.' !in ext
    ensures |ext| < |fileName| || ext == ""
    ensures ext != "" ==>
      && ext == fileName[|fileName| - |ext|..]
      && |fileName| - |ext| - 1 > 0
      && fileName[|fileName| - |ext| - 1] == '.'
    ensures (exists i :: 0 < i < |fileName| && fileName[i] == '.') ==>
      |ext| < |fileName| - 1 && fileName[|fileName| - |ext| - 1] == '.'
    ensures (forall i :: 0 < i < |fileName| ==> fileName[i] != '.') ==> ext == ""
  {
    var i := LastIndexOf(fileName, '.');
    if i > 0 then fileName[i + 1..] else ""
  }

  /** `pageName`: the file name without its last three characters (the
      `.md` suffix); `substring` throws on a name shorter than that. */
  function PageName(fileName: string): (r: Result<string>)
    ensures r.Ok? <==> |fileName| >= 3
    ensures r.Ok? ==> r.value + fileName[|fileName| - 3..] == fileName
  {
    Substring(fileName, 0, |fileName| - 3)
  }

  /** A file whose extension is `md` has a non-empty page name, and that
      name followed by `.md` is the file name again. */
  lemma MarkdownPageName(fileName: string)
    requires Extension(fileName) == "md"
    ensures PageName(fileName).Ok?
    ensures PageName(fileName).value != ""
    ensures PageName(fileName).value + ".md" == fileName
  {
    assert fileName[|fileName| - 3..] == ".md";
  }

  /** Conversely, a page name followed by `.md` is recognised as a page
      exactly when the name is not empty, and gives back that name. */
  lemma MarkdownFileName(name: string)
    ensures Extension(name + ".md") == "md" <==> name != ""
    ensures name != "" ==> PageName(name + ".md") == Ok(name)
  {
    var f := name + ".md";
    assert f[|name|] == '.' && f[|name| + 1..] == "md";
    assert forall j :: |name| < j < |f| ==> f[j] != '.';
    var i := LastIndexOf(f, '.');
    assert i == |name|;
    assert f[..|name|] == name;
  }

  /** A file called `.md` is not a page: its only dot is its first
      character. */
  lemma HiddenMarkdownIgnored()
    ensures Extension(".md") == ""
  {
    MarkdownFileName("");
  }
}
