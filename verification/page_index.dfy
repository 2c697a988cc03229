/** The indexer's state: the temporary reverse index (page name to ID), the
    page index (ID to metadata) and the word index (word to page IDs), with
    `buildPageIndices`, `processWord` and `buildWordIndex` as pure updates. */
module PageIndex {
  import opened Results
  import opened FrontMatter
  import opened WordFilter

  /** The three maps of an `Indexer`. Page IDs are Java `Integer`s that are
      never negative. */
  datatype Index = Index(
    reverseIndex: map<string, nat>,
    pageIndex: map<nat, Metadata>,
    wordIndex: map<string, set<nat>>)

  /** A fresh `Indexer`: all three maps empty. */
  const Empty: Index := Index(map[], map[], map[])

  /** The page IDs are exactly `0 .. n-1` for `n` registered pages. */
  ghost predicate GaplessIds(ix: Index) {
    forall id: nat :: id in ix.pageIndex <==> id < |ix.reverseIndex|
  }

  /** The reverse index and the page index are inverse to each other through
      the `pageName` entry of the metadata. */
  ghost predicate Bijection(ix: Index) {
    && (forall p :: p in ix.reverseIndex ==>
          && ix.reverseIndex[p] in ix.pageIndex
          && "pageName" in ix.pageIndex[ix.reverseIndex[p]]
          && ix.pageIndex[ix.reverseIndex[p]]["pageName"] == p)
    && (forall id :: id in ix.pageIndex ==>
          && "pageName" in ix.pageIndex[id]
          && ix.pageIndex[id]["pageName"] in ix.reverseIndex
          && ix.reverseIndex[ix.pageIndex[id]["pageName"]] == id)
  }

  /** Every word maps to a non-empty set of registered page IDs. */
  ghost predicate WordsRegistered(ix: Index) {
    forall w :: w in ix.wordIndex ==> ix.wordIndex[w] != {} && ix.wordIndex[w] <= ix.pageIndex.Keys
  }

  /** Every word in the word index passes `include`. */
  ghost predicate WordsFiltered(ix: Index) {
    forall w :: w in ix.wordIndex ==> Include(w)
  }

  ghost predicate Valid(ix: Index) {
    GaplessIds(ix) && Bijection(ix) && WordsRegistered(ix) && WordsFiltered(ix)
  }

  lemma EmptyValid()
    ensures Valid(Empty)
  {
  }

  // ---------------------------------------------------------------------
  // buildPageIndices
  // ---------------------------------------------------------------------

  /** `buildPageIndices`: a page name seen before changes nothing (the first
      metadata stays); a new one gets the next ID, the number of pages
      registered so far, in both maps. Existing entries never change. */
  function RegisterPage(ix: Index, metadata: Metadata): (r: Index)
    requires "pageName" in metadata
    ensures metadata["pageName"] in r.reverseIndex
    ensures metadata["pageName"] in ix.reverseIndex ==> r == ix
    ensures metadata["pageName"] !in ix.reverseIndex ==>
      && r.reverseIndex[metadata["pageName"]] == |ix.reverseIndex|
      && r.pageIndex.Keys == ix.pageIndex.Keys + {|ix.reverseIndex|}
      && r.pageIndex[|ix.reverseIndex|] == metadata
      && |r.reverseIndex| == |ix.reverseIndex| + 1
    ensures r.reverseIndex.Keys == ix.reverseIndex.Keys + {metadata["pageName"]}
    ensures forall p :: p in ix.reverseIndex ==> r.reverseIndex[p] == ix.reverseIndex[p]
    ensures r.wordIndex == ix.wordIndex
  {
    var pageName := metadata["pageName"];
    if pageName !in ix.reverseIndex then
      var i := |ix.reverseIndex|;
      ix.(reverseIndex := ix.reverseIndex[pageName := i], pageIndex := ix.pageIndex[i := metadata])
    else ix
  }

  /** Registering keeps the IDs gapless and the two maps inverse. */
  lemma RegisterPreservesValid(ix: Index, metadata: Metadata)
    requires Valid(ix) && "pageName" in metadata
    ensures Valid(RegisterPage(ix, metadata))
  {
    var p := metadata["pageName"];
    if p !in ix.reverseIndex {
      var n := |ix.reverseIndex|;
      assert n !in ix.pageIndex;
      var r := Index(ix.reverseIndex[p := n], ix.pageIndex[n := metadata], ix.wordIndex);
      assert r == RegisterPage(ix, metadata);
      RegisterGapless(ix, r, n);
      RegisterForward(ix, r, p, n, metadata);
      RegisterBackward(ix, r, p, n, metadata);
    }
  }

  lemma RegisterGapless(ix: Index, r: Index, n: nat)
    requires GaplessIds(ix) && n == |ix.reverseIndex|
    requires r.pageIndex.Keys == ix.pageIndex.Keys + {n} && |r.reverseIndex| == n + 1
    ensures GaplessIds(r)
  {
    forall id: nat
      ensures id in r.pageIndex <==> id < |r.reverseIndex|
    {
      assert id in ix.pageIndex <==> id < n;
    }
  }

  lemma RegisterForward(ix: Index, r: Index, p: string, n: nat, metadata: Metadata)
    requires Valid(ix) && n == |ix.reverseIndex| && p !in ix.reverseIndex
    requires "pageName" in metadata && metadata["pageName"] == p
    requires r.reverseIndex == ix.reverseIndex[p := n] && r.pageIndex == ix.pageIndex[n := metadata]
    ensures forall q :: q in r.reverseIndex ==>
      && r.reverseIndex[q] in r.pageIndex
      && "pageName" in r.pageIndex[r.reverseIndex[q]]
      && r.pageIndex[r.reverseIndex[q]]["pageName"] == q
  {
    forall q | q in r.reverseIndex
      ensures && r.reverseIndex[q] in r.pageIndex
              && "pageName" in r.pageIndex[r.reverseIndex[q]]
              && r.pageIndex[r.reverseIndex[q]]["pageName"] == q
    {
      if q != p {
        assert ix.reverseIndex[q] in ix.pageIndex;
        assert ix.reverseIndex[q] != n;
      }
    }
  }

  lemma RegisterBackward(ix: Index, r: Index, p: string, n: nat, metadata: Metadata)
    requires Valid(ix) && n == |ix.reverseIndex| && p !in ix.reverseIndex
    requires "pageName" in metadata && metadata["pageName"] == p
    requires r.reverseIndex == ix.reverseIndex[p := n] && r.pageIndex == ix.pageIndex[n := metadata]
    ensures forall id :: id in r.pageIndex ==>
      && "pageName" in r.pageIndex[id]
      && r.pageIndex[id]["pageName"] in r.reverseIndex
      && r.reverseIndex[r.pageIndex[id]["pageName"]] == id
  {
    forall id | id in r.pageIndex
      ensures && "pageName" in r.pageIndex[id]
              && r.pageIndex[id]["pageName"] in r.reverseIndex
              && r.reverseIndex[r.pageIndex[id]["pageName"]] == id
    {
      if id != n {
        assert ix.pageIndex[id]["pageName"] in ix.reverseIndex;
      }
    }
  }

  /** With gapless IDs, registering never changes the metadata of a page
      already registered: the next ID is not yet in use. */
  lemma RegisterKeepsPages(ix: Index, metadata: Metadata)
    requires GaplessIds(ix) && "pageName" in metadata
    ensures GaplessIds(RegisterPage(ix, metadata))
    ensures forall id :: id in ix.pageIndex ==>
      id in RegisterPage(ix, metadata).pageIndex && RegisterPage(ix, metadata).pageIndex[id] == ix.pageIndex[id]
  {
    if metadata["pageName"] !in ix.reverseIndex {
      var n := |ix.reverseIndex|;
      assert n !in ix.pageIndex;
      RegisterGapless(ix, RegisterPage(ix, metadata), n);
    }
  }

  /** Registering the same page name again, with any metadata, is a no-op:
      both registrations leave the same ID and the first metadata. */
  lemma RegisterIdempotent(ix: Index, first: Metadata, second: Metadata)
    requires "pageName" in first && "pageName" in second
    requires first["pageName"] == second["pageName"]
    ensures RegisterPage(RegisterPage(ix, first), second) == RegisterPage(ix, first)
  {
  }

  // ---------------------------------------------------------------------
  // processWord
  // ---------------------------------------------------------------------

  /** Word `w` is recorded for page `id`. */
  ghost predicate Posted(ix: Index, w: string, id: nat) {
    w in ix.wordIndex && id in ix.wordIndex[w]
  }

  /** `processWord`: a word `include` rejects changes nothing; an accepted
      word gains `pageId` in its set (a new singleton set when the word is
      new); no other word and neither page map changes. */
  function ProcessWord(ix: Index, word: string, pageId: nat): (r: Index)
    ensures !Include(word) ==> r == ix
    ensures Include(word) ==> word in r.wordIndex && pageId in r.wordIndex[word]
    ensures forall w, id :: Posted(r, w, id) <==> Posted(ix, w, id) || (w == word && id == pageId && Include(word))
    ensures forall w :: w in r.wordIndex <==> w in ix.wordIndex || (w == word && Include(word))
    ensures r.reverseIndex == ix.reverseIndex && r.pageIndex == ix.pageIndex
  {
    if Include(word) then
      if word in ix.wordIndex then
        ix.(wordIndex := ix.wordIndex[word := ix.wordIndex[word] + {pageId}])
      else
        ix.(wordIndex := ix.wordIndex[word := {pageId}])
    else ix
  }

  /** Recording the same word for the same page twice is the same as once. */
  lemma ProcessWordIdempotent(ix: Index, word: string, pageId: nat)
    ensures ProcessWord(ProcessWord(ix, word, pageId), word, pageId) == ProcessWord(ix, word, pageId)
  {
    var once := ProcessWord(ix, word, pageId);
    if Include(word) {
      assert once.wordIndex[word] + {pageId} == once.wordIndex[word];
    }
  }

  /** The order in which words are recorded does not matter. */
  lemma ProcessWordCommutes(ix: Index, a: string, i: nat, b: string, j: nat)
    ensures ProcessWord(ProcessWord(ix, a, i), b, j) == ProcessWord(ProcessWord(ix, b, j), a, i)
  {
    if Include(a) && Include(b) {
      var ab := ProcessWord(ProcessWord(ix, a, i), b, j);
      var ba := ProcessWord(ProcessWord(ix, b, j), a, i);
      PostingsDetermineWords(ab, ba);
    }
  }

  /** Two states with the same registry and the same postings are equal. */
  lemma PostingsDetermineWords(x: Index, y: Index)
    requires x.reverseIndex == y.reverseIndex && x.pageIndex == y.pageIndex
    requires x.wordIndex.Keys == y.wordIndex.Keys
    requires forall w, id :: Posted(x, w, id) <==> Posted(y, w, id)
    ensures x == y
  {
    forall w | w in x.wordIndex
      ensures x.wordIndex[w] == y.wordIndex[w]
    {
      forall id ensures id in x.wordIndex[w] <==> id in y.wordIndex[w] {
        assert Posted(x, w, id) <==> Posted(y, w, id);
      }
    }
  }

  /** Recording a word for a registered page keeps the state valid: the
      word passes `include` and its set stays within the registered IDs. */
  lemma ProcessWordPreservesValid(ix: Index, word: string, pageId: nat)
    requires Valid(ix) && pageId in ix.pageIndex
    ensures Valid(ProcessWord(ix, word, pageId))
  {
    if Include(word) {
      ProcessWordKeepsRegistered(ix, word, pageId);
    }
  }

  lemma ProcessWordKeepsRegistered(ix: Index, word: string, pageId: nat)
    requires WordsRegistered(ix) && pageId in ix.pageIndex
    ensures WordsRegistered(ProcessWord(ix, word, pageId))
  {
    var r := ProcessWord(ix, word, pageId);
    forall w | w in r.wordIndex
      ensures r.wordIndex[w] != {} && r.wordIndex[w] <= r.pageIndex.Keys
    {
      if w == word && Include(word) {
        if word in ix.wordIndex {
          assert r.wordIndex[w] == ix.wordIndex[w] + {pageId};
        } else {
          assert r.wordIndex[w] == {pageId};
        }
      } else {
        assert r.wordIndex[w] == ix.wordIndex[w];
      }
    }
  }

  // ---------------------------------------------------------------------
  // buildWordIndex
  // ---------------------------------------------------------------------

  /** The loop of `buildWordIndex`: every word is recorded for `pageId`. */
  function ProcessWords(ix: Index, words: seq<string>, pageId: nat): (r: Index)
    ensures r.reverseIndex == ix.reverseIndex && r.pageIndex == ix.pageIndex
    decreases |words|
  {
    if words == [] then ix
    else ProcessWords(ProcessWord(ix, words[0], pageId), words[1..], pageId)
  }

  /** After the loop, a word is recorded for a page exactly when it was
      before, or it is one of the words, passes `include`, and the page is
      `pageId`; the page maps do not change. */
  lemma {:induction false} ProcessWordsSpec(ix: Index, words: seq<string>, pageId: nat)
    ensures forall w, id :: Posted(ProcessWords(ix, words, pageId), w, id) <==>
      Posted(ix, w, id) || (id == pageId && w in words && Include(w))
    decreases |words|
  {
    if words != [] {
      var ix1 := ProcessWord(ix, words[0], pageId);
      ProcessWordsSpec(ix1, words[1..], pageId);
      assert forall w :: w in words <==> w == words[0] || w in words[1..];
    }
  }

  /** The loop keeps the state valid when `pageId` is registered. */
  lemma {:induction false} ProcessWordsPreservesValid(ix: Index, words: seq<string>, pageId: nat)
    requires Valid(ix) && pageId in ix.pageIndex
    ensures Valid(ProcessWords(ix, words, pageId))
    decreases |words|
  {
    if words != [] {
      ProcessWordPreservesValid(ix, words[0], pageId);
      ProcessWordsPreservesValid(ProcessWord(ix, words[0], pageId), words[1..], pageId);
    }
  }

  /** `buildWordIndex` for one page: read its metadata (which may throw),
      register the page, then record each of its words under the page's ID,
      looked up after registration. `words` stands for the analyzer's output
      split at spaces. */
  function BuildWordIndex(ix: Index, content: string, pageName: string, words: seq<string>): (r: Result<Index>)
    ensures r.Err? <==> GetMetadata(content, pageName).Err?
    ensures r.Ok? ==> pageName in r.value.reverseIndex
  {
    var metadata :- GetMetadata(content, pageName);
    var registered := RegisterPage(ix, metadata);
    Ok(ProcessWords(registered, words, registered.reverseIndex[pageName]))
  }

  /** What one page adds: its name is registered (keeping an existing ID,
      else with the next ID and its own metadata), and its accepted words
      are recorded under that ID; no existing ID and no other posting
      changes. */
  lemma BuildWordIndexSpec(ix: Index, content: string, pageName: string, words: seq<string>)
    requires BuildWordIndex(ix, content, pageName, words).Ok?
    ensures var r := BuildWordIndex(ix, content, pageName, words).value;
      && r.reverseIndex.Keys == ix.reverseIndex.Keys + {pageName}
      && (forall p :: p in ix.reverseIndex ==> r.reverseIndex[p] == ix.reverseIndex[p])
      && (pageName !in ix.reverseIndex ==>
            && r.reverseIndex[pageName] == |ix.reverseIndex|
            && r.reverseIndex[pageName] in r.pageIndex
            && r.pageIndex[r.reverseIndex[pageName]] == GetMetadata(content, pageName).value)
      && (forall w, id :: Posted(r, w, id) <==>
            Posted(ix, w, id) || (id == r.reverseIndex[pageName] && w in words && Include(w)))
  {
    var metadata := GetMetadata(content, pageName).value;
    var registered := RegisterPage(ix, metadata);
    ProcessWordsSpec(registered, words, registered.reverseIndex[pageName]);
  }

  /** With gapless IDs, one page keeps them gapless and changes no stored
      metadata. */
  lemma BuildWordIndexKeepsPages(ix: Index, content: string, pageName: string, words: seq<string>)
    requires GaplessIds(ix)
    requires BuildWordIndex(ix, content, pageName, words).Ok?
    ensures var r := BuildWordIndex(ix, content, pageName, words).value;
      && GaplessIds(r)
      && (forall id :: id in ix.pageIndex ==> id in r.pageIndex && r.pageIndex[id] == ix.pageIndex[id])
  {
    RegisterKeepsPages(ix, GetMetadata(content, pageName).value);
  }

  /** One page keeps the state valid. */
  lemma BuildWordIndexPreservesValid(ix: Index, content: string, pageName: string, words: seq<string>)
    requires Valid(ix)
    requires BuildWordIndex(ix, content, pageName, words).Ok?
    ensures Valid(BuildWordIndex(ix, content, pageName, words).value)
  {
    var metadata := GetMetadata(content, pageName).value;
    RegisterPreservesValid(ix, metadata);
    var registered := RegisterPage(ix, metadata);
    ProcessWordsPreservesValid(registered, words, registered.reverseIndex[pageName]);
  }
}
