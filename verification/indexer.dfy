/** The indexing run (`Indexer.doWork` with the visitor's `visitFile`): every
    visited file that is a Markdown page goes through `buildWordIndex`, in
    visiting order, starting from empty maps. The directory walk becomes the
    sequence of visited files; reading files and writing JSON are left out. */
module Indexer {
  import opened Results
  import opened FrontMatter
  import opened WordFilter
  import opened PageIndex
  import opened PageFiles
  import opened Sequences

  /** A file the directory walk visits. `words` stands for what the Lucene
      analyzer makes of `content`, joined with spaces and split again. */
  datatype SourceFile = SourceFile(fileName: string, isRegularFile: bool, content: string, words: seq<string>)

  /** The visitor indexes regular files whose extension is `md`. */
  predicate IsPage(f: SourceFile) {
    f.isRegularFile && Extension(f.fileName) == "md"
  }

  /** The page name of a page file: its file name without `.md`. */
  function PageNameOf(f: SourceFile): (name: string)
    requires IsPage(f)
    ensures name != "" && name + ".md" == f.fileName
  {
    MarkdownPageName(f.fileName);
    PageName(f.fileName).value
  }

  /** `visitFile`: other files are skipped; a page is indexed under its page
      name, and an exception from it propagates out of the walk. */
  function VisitFile(ix: Index, f: SourceFile): (r: Result<Index>)
    ensures !IsPage(f) ==> r == Ok(ix)
  {
    if f.isRegularFile && Extension(f.fileName) == "md" then
      var pageName :- PageName(f.fileName);
      BuildWordIndex(ix, f.content, pageName, f.words)
    else Ok(ix)
  }

  /** The walk over `files`, continuing from the maps `ix`. */
  function BuildFrom(ix: Index, files: seq<SourceFile>): Result<Index>
    decreases |files|
  {
    if files == [] then Ok(ix)
    else
      var next :- VisitFile(ix, files[0]);
      BuildFrom(next, files[1..])
  }

  /** The whole run: the maps `doWork` hands to the JSON writer, or the
      exception that ends `main` before anything is written. */
  function Build(files: seq<SourceFile>): Result<Index> {
    BuildFrom(Empty, files)
  }

  /** A page whose front matter makes `getMetadata` throw. */
  predicate PageFails(f: SourceFile) {
    IsPage(f) && GetMetadata(f.content, PageNameOf(f)).Err?
  }

  /** Page file `f` contributes word `w`. */
  predicate Contributes(f: SourceFile, w: string) {
    IsPage(f) && w in f.words && Include(w)
  }

  /** The page names of the page files among `files`. */
  ghost function PageNames(files: seq<SourceFile>): set<string> {
    set i | 0 <= i < |files| && IsPage(files[i]) :: PageNameOf(files[i])
  }

  lemma PageNamesCons(files: seq<SourceFile>)
    requires files != []
    ensures PageNames(files) == PageNames(files[1..]) + (if IsPage(files[0]) then {PageNameOf(files[0])} else {})
  {
    forall p
      ensures p in PageNames(files) <==> p in PageNames(files[1..]) || (IsPage(files[0]) && PageNameOf(files[0]) == p)
    {
      ExistsCons(files, f => IsPage(f) && PageNameOf(f) == p);
    }
  }

  // ---------------------------------------------------------------------
  // One visited file
  // ---------------------------------------------------------------------

  lemma VisitFileFails(ix: Index, f: SourceFile)
    ensures VisitFile(ix, f).Err? <==> PageFails(f)
  {
  }

  lemma VisitFileValid(ix: Index, f: SourceFile)
    requires Valid(ix) && VisitFile(ix, f).Ok?
    ensures Valid(VisitFile(ix, f).value)
  {
    if IsPage(f) {
      BuildWordIndexPreservesValid(ix, f.content, PageNameOf(f), f.words);
    }
  }

  lemma VisitFileFrame(ix: Index, f: SourceFile)
    requires VisitFile(ix, f).Ok?
    ensures var r := VisitFile(ix, f).value;
      && r.reverseIndex.Keys == ix.reverseIndex.Keys + (if IsPage(f) then {PageNameOf(f)} else {})
      && (forall p :: p in ix.reverseIndex ==> r.reverseIndex[p] == ix.reverseIndex[p])
  {
    if IsPage(f) {
      BuildWordIndexSpec(ix, f.content, PageNameOf(f), f.words);
    }
  }

  lemma VisitFileKeepsPages(ix: Index, f: SourceFile)
    requires GaplessIds(ix) && VisitFile(ix, f).Ok?
    ensures var r := VisitFile(ix, f).value;
      && GaplessIds(r)
      && (forall id :: id in ix.pageIndex ==> id in r.pageIndex && r.pageIndex[id] == ix.pageIndex[id])
  {
    if IsPage(f) {
      BuildWordIndexKeepsPages(ix, f.content, PageNameOf(f), f.words);
    }
  }

  lemma VisitFileFirst(ix: Index, f: SourceFile)
    requires VisitFile(ix, f).Ok?
    requires IsPage(f) && PageNameOf(f) !in ix.reverseIndex
    ensures var r := VisitFile(ix, f).value;
      && PageNameOf(f) in r.reverseIndex
      && r.reverseIndex[PageNameOf(f)] in r.pageIndex
      && r.pageIndex[r.reverseIndex[PageNameOf(f)]] == GetMetadata(f.content, PageNameOf(f)).value
  {
    BuildWordIndexSpec(ix, f.content, PageNameOf(f), f.words);
  }

  lemma VisitFilePostings(ix: Index, f: SourceFile)
    requires VisitFile(ix, f).Ok?
    ensures var r := VisitFile(ix, f).value;
      forall w, id :: Posted(r, w, id) <==> Posted(ix, w, id) || ContributesAs(r, f, w, id)
  {
    if IsPage(f) {
      BuildWordIndexSpec(ix, f.content, PageNameOf(f), f.words);
    }
  }

  // ---------------------------------------------------------------------
  // The walk
  // ---------------------------------------------------------------------

  /** The walk fails exactly when some page's front matter throws, wherever
      that page comes in the visiting order. */
  lemma {:induction false} BuildFromFails(ix: Index, files: seq<SourceFile>)
    ensures BuildFrom(ix, files).Err? <==> exists i :: 0 <= i < |files| && PageFails(files[i])
    decreases |files|
  {
    if files != [] {
      VisitFileFails(ix, files[0]);
      var rest := files[1..];
      assert forall i :: 1 <= i < |files| ==> files[i] == rest[i - 1];
      if VisitFile(ix, files[0]).Ok? {
        BuildFromFails(VisitFile(ix, files[0]).value, rest);
        if exists i :: 0 <= i < |files| && PageFails(files[i]) {
          var i :| 0 <= i < |files| && PageFails(files[i]);
          assert i > 0 && PageFails(rest[i - 1]);
        }
      }
    }
  }

  /** A successful walk keeps the state valid. */
  lemma {:induction false} BuildFromValid(ix: Index, files: seq<SourceFile>)
    requires Valid(ix) && BuildFrom(ix, files).Ok?
    ensures Valid(BuildFrom(ix, files).value)
    decreases |files|
  {
    if files != [] {
      VisitFileValid(ix, files[0]);
      BuildFromValid(VisitFile(ix, files[0]).value, files[1..]);
    }
  }

  /** A successful walk registers exactly the page names of the page
      files, on top of those it started with. */
  lemma {:induction false} BuildFromNames(ix: Index, files: seq<SourceFile>)
    requires BuildFrom(ix, files).Ok?
    ensures BuildFrom(ix, files).value.reverseIndex.Keys == ix.reverseIndex.Keys + PageNames(files)
    decreases |files|
  {
    if files != [] {
      var ix1 := VisitFile(ix, files[0]).value;
      var head: set<string> := if IsPage(files[0]) then {PageNameOf(files[0])} else {};
      assert BuildFrom(ix, files) == BuildFrom(ix1, files[1..]);
      assert ix1.reverseIndex.Keys == ix.reverseIndex.Keys + head by {
        VisitFileFrame(ix, files[0]);
      }
      BuildFromNames(ix1, files[1..]);
      PageNamesCons(files);
      UnionStep(BuildFrom(ix, files).value.reverseIndex.Keys, ix1.reverseIndex.Keys, ix.reverseIndex.Keys,
        head, PageNames(files[1..]), PageNames(files));
    }
  }

  /** A successful walk keeps every ID it started with. */
  lemma {:induction false} BuildFromKeepsIds(ix: Index, files: seq<SourceFile>)
    requires BuildFrom(ix, files).Ok?
    ensures forall p :: p in ix.reverseIndex ==>
      p in BuildFrom(ix, files).value.reverseIndex && BuildFrom(ix, files).value.reverseIndex[p] == ix.reverseIndex[p]
    decreases |files|
  {
    if files != [] {
      var ix1 := VisitFile(ix, files[0]).value;
      VisitFileFrame(ix, files[0]);
      BuildFromKeepsIds(ix1, files[1..]);
    }
  }

  lemma UnionStep<T>(all: set<T>, mid: set<T>, start: set<T>, head: set<T>, tail: set<T>, names: set<T>)
    requires all == mid + tail && mid == start + head && names == tail + head
    ensures all == start + names
  {
  }

  /** With gapless IDs, a successful walk changes no stored metadata. */
  lemma {:induction false} BuildFromKeepsPages(ix: Index, files: seq<SourceFile>)
    requires GaplessIds(ix) && BuildFrom(ix, files).Ok?
    ensures var r := BuildFrom(ix, files).value;
      && GaplessIds(r)
      && (forall id :: id in ix.pageIndex ==> id in r.pageIndex && r.pageIndex[id] == ix.pageIndex[id])
    decreases |files|
  {
    if files != [] {
      VisitFileKeepsPages(ix, files[0]);
      BuildFromKeepsPages(VisitFile(ix, files[0]).value, files[1..]);
    }
  }

  /** Page file `i` is the first page file with its name. */
  predicate FirstWithName(files: seq<SourceFile>, i: nat)
    requires i < |files| && IsPage(files[i])
  {
    forall j :: 0 <= j < i && IsPage(files[j]) ==> PageNameOf(files[j]) != PageNameOf(files[i])
  }

  /** A page name new to the walk keeps the metadata of its first file:
      later files with the same name are absorbed into that page. */
  lemma {:induction false} BuildFromFirst(ix: Index, files: seq<SourceFile>, i: nat)
    requires GaplessIds(ix) && BuildFrom(ix, files).Ok?
    requires i < |files| && IsPage(files[i]) && FirstWithName(files, i)
    requires PageNameOf(files[i]) !in ix.reverseIndex
    ensures var r := BuildFrom(ix, files).value;
      && PageNameOf(files[i]) in r.reverseIndex
      && r.reverseIndex[PageNameOf(files[i])] in r.pageIndex
      && GetMetadata(files[i].content, PageNameOf(files[i])) == Ok(r.pageIndex[r.reverseIndex[PageNameOf(files[i])]])
    decreases |files|
  {
    if i == 0 {
      BuildFromFirstHead(ix, files);
    } else {
      var f := files[0];
      var rest := files[1..];
      var ix1 := VisitFile(ix, f).value;
      var name := PageNameOf(files[i]);
      VisitFileKeepsPages(ix, f);
      VisitFileFrame(ix, f);
      assert rest[i - 1] == files[i];
      assert name !in ix1.reverseIndex by {
        if IsPage(f) {
          assert PageNameOf(f) != name;
        }
      }
      FirstWithNameTail(files, i);
      BuildFromFirst(ix1, rest, i - 1);
    }
  }

  /** The first visited file, when it is a page with a new name, keeps the
      metadata it was registered with. */
  lemma BuildFromFirstHead(ix: Index, files: seq<SourceFile>)
    requires GaplessIds(ix) && BuildFrom(ix, files).Ok?
    requires files != [] && IsPage(files[0]) && PageNameOf(files[0]) !in ix.reverseIndex
    ensures var r := BuildFrom(ix, files).value;
      && PageNameOf(files[0]) in r.reverseIndex
      && r.reverseIndex[PageNameOf(files[0])] in r.pageIndex
      && GetMetadata(files[0].content, PageNameOf(files[0])) == Ok(r.pageIndex[r.reverseIndex[PageNameOf(files[0])]])
  {
    var ix1 := VisitFile(ix, files[0]).value;
    VisitFileKeepsPages(ix, files[0]);
    VisitFileFirst(ix, files[0]);
    BuildFromKeepsIds(ix1, files[1..]);
    BuildFromKeepsPages(ix1, files[1..]);
  }

  lemma FirstWithNameTail(files: seq<SourceFile>, i: nat)
    requires 0 < i < |files| && IsPage(files[i]) && FirstWithName(files, i)
    ensures FirstWithName(files[1..], i - 1)
  {
    var rest := files[1..];
    forall j | 0 <= j < i - 1 && IsPage(rest[j])
      ensures PageNameOf(rest[j]) != PageNameOf(rest[i - 1])
    {
      assert rest[j] == files[j + 1];
    }
  }

  /** Page file `f` contributes `w` under an ID that `r` assigns to its
      page name. */
  predicate ContributesAs(r: Index, f: SourceFile, w: string, id: nat) {
    Contributes(f, w) && PageNameOf(f) in r.reverseIndex && id == r.reverseIndex[PageNameOf(f)]
  }

  /** One step of the postings induction, for one word and one ID: the
      first file's contribution and the rest's combine into the walk's. */
  lemma PostingsCons(ix: Index, ix1: Index, r: Index, files: seq<SourceFile>, w: string, id: nat)
    requires files != []
    requires Posted(ix1, w, id) <==> Posted(ix, w, id) || ContributesAs(ix1, files[0], w, id)
    requires Posted(r, w, id) <==> Posted(ix1, w, id) || exists i :: 0 <= i < |files[1..]| && ContributesAs(r, files[1..][i], w, id)
    requires IsPage(files[0]) ==> PageNameOf(files[0]) in ix1.reverseIndex
    requires forall p :: p in ix1.reverseIndex ==> p in r.reverseIndex && r.reverseIndex[p] == ix1.reverseIndex[p]
    ensures Posted(r, w, id) <==> Posted(ix, w, id) || exists i :: 0 <= i < |files| && ContributesAs(r, files[i], w, id)
  {
    ExistsCons(files, f => ContributesAs(r, f, w, id));
    assert ContributesAs(ix1, files[0], w, id) <==> ContributesAs(r, files[0], w, id);
  }

  /** A successful walk records a word for a page ID exactly when it was
      recorded before, or some page file whose name has that ID contains
      the word and the word passes `include`. */
  lemma {:induction false} BuildFromPostings(ix: Index, files: seq<SourceFile>)
    requires BuildFrom(ix, files).Ok?
    ensures var r := BuildFrom(ix, files).value;
      forall w, id :: Posted(r, w, id) <==>
        Posted(ix, w, id) || exists i :: 0 <= i < |files| && ContributesAs(r, files[i], w, id)
    decreases |files|
  {
    if files != [] {
      var ix1 := VisitFile(ix, files[0]).value;
      VisitFilePostings(ix, files[0]);
      VisitFileFrame(ix, files[0]);
      BuildFromPostings(ix1, files[1..]);
      BuildFromKeepsIds(ix1, files[1..]);
      var r := BuildFrom(ix1, files[1..]).value;
      forall w, id
        ensures Posted(r, w, id) <==> Posted(ix, w, id) || exists i :: 0 <= i < |files| && ContributesAs(r, files[i], w, id)
      {
        PostingsCons(ix, ix1, r, files, w, id);
      }
    }
  }

  // ---------------------------------------------------------------------
  // The run from empty maps
  // ---------------------------------------------------------------------

  /** The run fails exactly when some page's front matter has a value that
      is a lone quote; otherwise its maps are valid (gapless IDs, the two
      page maps inverse, every recorded ID registered, every word accepted
      by `include`) and hold exactly the page names of the page files. */
  lemma BuildPages(files: seq<SourceFile>)
    ensures Build(files).Err? <==> exists i :: 0 <= i < |files| && PageFails(files[i])
    ensures Build(files).Ok? ==> Valid(Build(files).value)
    ensures Build(files).Ok? ==> Build(files).value.reverseIndex.Keys == PageNames(files)
  {
    EmptyValid();
    BuildFromFails(Empty, files);
    if Build(files).Ok? {
      BuildFromValid(Empty, files);
      BuildFromNames(Empty, files);
    }
  }

  /** Each page is stored with the metadata of the first file that has its
      page name. */
  lemma BuildFirstMetadata(files: seq<SourceFile>, i: nat)
    requires Build(files).Ok?
    requires i < |files| && IsPage(files[i]) && FirstWithName(files, i)
    ensures var r := Build(files).value;
      && PageNameOf(files[i]) in r.reverseIndex
      && r.reverseIndex[PageNameOf(files[i])] in r.pageIndex
      && GetMetadata(files[i].content, PageNameOf(files[i])) == Ok(r.pageIndex[r.reverseIndex[PageNameOf(files[i])]])
  {
    EmptyValid();
    BuildFromFirst(Empty, files, i);
  }

  /** A word is recorded for a page ID exactly when a page file whose name
      has that ID contains the word and `include` accepts it; two files with
      the same page name therefore share one ID. */
  lemma BuildPostings(files: seq<SourceFile>)
    requires Build(files).Ok?
    ensures var r := Build(files).value;
      forall w, id :: Posted(r, w, id) <==> exists i :: 0 <= i < |files| && ContributesAs(r, files[i], w, id)
  {
    BuildFromPostings(Empty, files);
  }
}
