/**
 * What the harvesting steps promise, stated over the step functions of
 * HarvestState: recording, completion detection, the one-write save, the
 * choice of the next page, the settle rule and the reset of a first run.
 */
module HarvestProperties {
  import opened Wrappers
  import opened Navigation
  import opened HarvestState

  /** Everything a merge, a completion check or a jump leaves alone. */
  ghost predicate SameProgress(a: State, b: State) {
    && a.pageSlices == b.pageSlices
    && a.processing == b.processing
    && a.completed == b.completed
    && a.activePage == b.activePage
    && a.running == b.running
    && a.initialized == b.initialized
    && a.currentMin == b.currentMin
    && a.startPage == b.startPage
    && a.savedFiles == b.savedFiles
    && a.downloads == b.downloads
    && a.saveTimers == b.saveTimers
  }

  lemma MergeFrame(s: State, bookId: string, page: int)
    ensures SameProgress(s, Merge(s, bookId, page))
    ensures Merge(s, bookId, page).settle == s.settle
  {
  }

  lemma CheckFrame(s: State, bookId: string, doc: Document, page: int)
    ensures SameProgress(s, Check(s, bookId, doc, page))
    ensures Check(s, bookId, doc, page).settle == s.settle
  {
    if Ready(s, doc, page) {
      MergeFrame(s.(pending := s.pending + {page}), bookId, page);
    }
  }

  lemma JumpFrame(s: State, bookId: string, doc: Document, page: int, isRetry: bool)
    ensures SameProgress(s, Jump(s, bookId, doc, page, isRetry))
  {
    if page in Indices(doc) {
      var s1 := if page in s.pending && s.running then Merge(s, bookId, page) else s;
      MergeFrame(s, bookId, page);
      assert SameProgress(s, s1);
      assert Jump(s, bookId, doc, page, isRetry) == s1.(settle := Some(SettleTimer(page, isRetry)));
    }
  }

  lemma MergeCheckJumpFrame(s: State, bookId: string, doc: Document, page: int, isRetry: bool)
    ensures SameProgress(s, Merge(s, bookId, page))
    ensures SameProgress(s, Check(s, bookId, doc, page))
    ensures SameProgress(s, Jump(s, bookId, doc, page, isRetry))
    ensures Check(s, bookId, doc, page).settle == s.settle
  {
    MergeFrame(s, bookId, page);
    CheckFrame(s, bookId, doc, page);
    JumpFrame(s, bookId, doc, page, isRetry);
  }

  /** A slice that arrives while the run is stopped, or for a page before the start page, changes nothing. */
  lemma RecordIgnoredWhenStopped(s: State, bookId: string, doc: Document, page: int, left: int, width: nat, height: nat)
    requires !s.running || page < s.startPage
    ensures Record(s, bookId, doc, page, left, width, height) == s
  {
  }

  /**
   * Recording a slice while running: the page's slice map is created on the
   * first slice and the page becomes processing; a new offset is added with
   * count 1, a repeated one only counts up, so the number of distinct slices
   * grows by one exactly for a new offset.  Completed pages stay as they were.
   */
  lemma RecordStoresSlice(s: State, bookId: string, doc: Document, page: int, left: int, width: nat, height: nat)
    requires s.running && page >= s.startPage
    ensures var r := Record(s, bookId, doc, page, left, width, height);
      && r.pageSlices == s.pageSlices[page := RecordSlice(SlicesOf(s, page), left, width, height)]
      && r.processing == (if page in s.pageSlices then s.processing else s.processing + {page})
      && |r.pageSlices[page]| == (if left in SlicesOf(s, page) then |SlicesOf(s, page)| else |SlicesOf(s, page)| + 1)
      && r.completed == s.completed
      && r.savedFiles == s.savedFiles
  {
    var s1 := StoreSlice(s, page, left, width, height);
    MergeCheckJumpFrame(s1.(currentMin := Finite(page)), bookId, doc, page, false);
    var s2 := if Below(page, s1.currentMin) && page !in s1.completed
              then Jump(s1.(currentMin := Finite(page)), bookId, doc, page, false)
              else s1;
    MergeCheckJumpFrame(s2, bookId, doc, page, false);
  }

  /**
   * The navigation part of processSliceImage: a page below `currentMinPage`
   * that is not completed becomes `currentMinPage` and is jumped to, which arms
   * the settle timer for it when the page has a box; otherwise both stay.
   */
  lemma RecordJumpsToNewMinimum(s: State, bookId: string, doc: Document, page: int, left: int, width: nat, height: nat)
    requires s.running && page >= s.startPage
    ensures var r := Record(s, bookId, doc, page, left, width, height);
      if Below(page, s.currentMin) && page !in s.completed then
        && r.currentMin == Finite(page)
        && r.settle == (if page in Indices(doc) then Some(SettleTimer(page, false)) else s.settle)
      else
        r.currentMin == s.currentMin && r.settle == s.settle
  {
    var s1 := StoreSlice(s, page, left, width, height);
    var s2 := if Below(page, s1.currentMin) && page !in s1.completed
              then Jump(s1.(currentMin := Finite(page)), bookId, doc, page, false)
              else s1;
    JumpFrame(s1.(currentMin := Finite(page)), bookId, doc, page, false);
    CheckFrame(s2, bookId, doc, page);
  }

  /**
   * checkPageCompletion in full: nothing unless the page is ready (declared
   * count above 0, at least that many distinct slices, neither completed nor
   * pending); a ready page becomes pending; only the active page of a running
   * harvest is merged at once, which takes it out of pending again and starts
   * its encode.
   */
  lemma CheckCases(s: State, bookId: string, doc: Document, page: int)
    ensures !Ready(s, doc, page) ==> Check(s, bookId, doc, page) == s
    ensures Ready(s, doc, page) && !(s.activePage == Some(page) && s.running) ==>
              Check(s, bookId, doc, page) == s.(pending := s.pending + {page})
    ensures Ready(s, doc, page) && s.activePage == Some(page) && s.running ==>
              page in s.pageSlices &&
              Check(s, bookId, doc, page) == s.(encodes := s.encodes + [MergeJob(s, bookId, page)])
  {
    if Ready(s, doc, page) && s.activePage == Some(page) && s.running {
      var s1 := s.(pending := s.pending + {page});
      assert page in s.pageSlices;
      assert CanMerge(s1, page);
      assert s1.pending - {page} == s.pending;
    }
  }

  /** A second completion check of a page that is not being merged changes nothing. */
  lemma CheckIdempotent(s: State, bookId: string, doc: Document, page: int)
    requires !(s.activePage == Some(page) && s.running)
    ensures Check(Check(s, bookId, doc, page), bookId, doc, page) == Check(s, bookId, doc, page)
  {
    CheckCases(s, bookId, doc, page);
  }

  /**
   * For the active page of a running harvest a second check before the save
   * has finished merges again: the merge took the page out of pending and it
   * is not completed yet.  The second encode ends at an already saved name.
   */
  lemma ActivePageMergesAgainUntilSaved(s: State, bookId: string, doc: Document, page: int)
    requires Ready(s, doc, page) && s.activePage == Some(page) && s.running
    ensures |Check(Check(s, bookId, doc, page), bookId, doc, page).encodes| == |s.encodes| + 2
  {
    CheckCases(s, bookId, doc, page);
    var s1 := Check(s, bookId, doc, page);
    assert SlicesOf(s1, page) == SlicesOf(s, page);
    CheckCases(s1, bookId, doc, page);
  }

  /** A completed page is never merged or marked pending again in the same run. */
  lemma CompletedPageIsFinal(s: State, bookId: string, doc: Document, page: int)
    requires page in s.completed
    ensures Merge(s, bookId, page) == s
    ensures Check(s, bookId, doc, page) == s
  {
  }

  /** Both paths of saveBlob do the same bookkeeping; only a new name is written. */
  lemma SaveBlobPaths(s: State, filename: string, page: int)
    ensures SaveBlob(s, filename, page) ==
      s.(savedFiles := s.savedFiles + {filename},
         downloads := if filename in s.savedFiles then s.downloads else s.downloads + [filename],
         saveTimers := s.saveTimers + [page])
  {
    if filename in s.savedFiles {
      assert s.savedFiles + {filename} == s.savedFiles;
    }
  }

  /** Two saves under one name write one file but schedule the bookkeeping twice. */
  lemma SavingTwiceWritesOnce(s: State, filename: string, p: int, q: int)
    ensures var r := SaveBlob(SaveBlob(s, filename, p), filename, q);
      && r.downloads == (if filename in s.savedFiles then s.downloads else s.downloads + [filename])
      && r.saveTimers == s.saveTimers + [p, q]
      && filename in r.savedFiles
  {
    SaveBlobPaths(s, filename, p);
    SaveBlobPaths(SaveBlob(s, filename, p), filename, q);
  }

  lemma FindNextFrame(s: State, bookId: string, doc: Document)
    ensures var r := FindNext(s, bookId, doc);
      r.completed == s.completed && r.processing == s.processing && r.pageSlices == s.pageSlices
      && r.savedFiles == s.savedFiles && r.downloads == s.downloads && r.saveTimers == s.saveTimers
  {
    match NextPage(Indices(doc), s.startPage, s.completed)
    case Some(n) => MergeCheckJumpFrame(s.(currentMin := Finite(n)), bookId, doc, n, false);
    case None =>
  }

  /**
   * Whichever path saveBlob took, once its timer fires the page is completed
   * and no longer processing.
   */
  lemma SaveDoneAfterEitherPath(s: State, bookId: string, doc: Document, filename: string, page: int)
    requires s.saveTimers == []
    ensures SaveDone(SaveBlob(s, filename, page), bookId, doc).completed == s.completed + {page}
    ensures SaveDone(SaveBlob(s, filename, page), bookId, doc).processing == s.processing - {page}
  {
    var t := SaveBlob(s, filename, page);
    assert t.saveTimers == [page];
    var s1 := t.(saveTimers := t.saveTimers[1..], completed := t.completed + {page},
                 processing := t.processing - {page});
    FindNextFrame(s1, bookId, doc);
  }

  /**
   * findAndJumpToNextPage: a stopped run is left alone; otherwise
   * `currentMinPage` becomes the smallest page of the document at or after the
   * start page that is not completed, or the run ends when there is none.
   */
  lemma FindNextChoosesSmallest(s: State, bookId: string, doc: Document)
    ensures !s.running ==> FindNext(s, bookId, doc) == s
    ensures s.running && NextPage(Indices(doc), s.startPage, s.completed).None? ==>
              !FindNext(s, bookId, doc).running
    ensures s.running && NextPage(Indices(doc), s.startPage, s.completed).Some? ==>
              var n := NextPage(Indices(doc), s.startPage, s.completed).value;
              && FindNext(s, bookId, doc).running
              && FindNext(s, bookId, doc).currentMin == Finite(n)
              && FindNext(s, bookId, doc).settle == Some(SettleTimer(n, false))
              && n in Indices(doc) && n >= s.startPage && n !in s.completed
              && (forall p :: p in Indices(doc) && p >= s.startPage && p !in s.completed ==> n <= p)
  {
    match NextPage(Indices(doc), s.startPage, s.completed)
    case Some(n) => MergeCheckJumpFrame(s.(currentMin := Finite(n)), bookId, doc, n, false);
    case None =>
  }

  /** When every page from the start page on is completed, the next search ends the run. */
  lemma RunEndsWhenAllCompleted(s: State, bookId: string, doc: Document)
    requires forall k :: 0 <= k < |doc.boxes| && doc.boxes[k].index >= s.startPage ==> doc.boxes[k].index in s.completed
    ensures !FindNext(s, bookId, doc).running
  {
    var pages := Indices(doc);
    forall p | p in pages && p >= s.startPage
      ensures p in s.completed
    {
      var k :| 0 <= k < |pages| && pages[k] == p;
    }
    FindNextChoosesSmallest(s, bookId, doc);
  }

  /**
   * The settle step: far from the target on a first attempt it jumps again
   * (tagged as retry) and leaves the active page alone; otherwise, and always
   * after a retry, the target becomes the active page and the timer is spent.
   */
  lemma SettleRule(s: State, bookId: string, doc: Document)
    requires s.settle.Some?
    ensures var t := s.settle.value;
      WantsRetry(VisiblePage(doc), t) && t.target in Indices(doc) ==>
        Settle(s, bookId, doc).settle == Some(SettleTimer(t.target, true))
        && Settle(s, bookId, doc).activePage == s.activePage
    ensures var t := s.settle.value;
      !WantsRetry(VisiblePage(doc), t) ==>
        Settle(s, bookId, doc).activePage == Some(t.target) && Settle(s, bookId, doc).settle == None
    ensures s.settle.value.isRetry ==> Settle(s, bookId, doc).activePage == Some(s.settle.value.target)
  {
    var t := s.settle.value;
    var s0 := s.(settle := None);
    MergeCheckJumpFrame(s0, bookId, doc, t.target, true);
    MergeCheckJumpFrame(s0.(activePage := Some(t.target)), bookId, doc, t.target, true);
  }

  /**
   * A first run clears pending and processing pages and the active page but
   * keeps completed pages, recorded slices and saved names; a start page from
   * the prompt becomes both the start page and `currentMinPage`.
   */
  lemma InitResets(s: State, bookId: string, doc: Document, userStart: Option<int>)
    ensures var r := Init(s, bookId, doc, true, userStart);
      && r.pending == {} && r.processing == {} && r.activePage == None
      && r.completed == s.completed && r.pageSlices == s.pageSlices
      && r.savedFiles == s.savedFiles && r.encodes == s.encodes && r.initialized
    ensures userStart.Some? ==>
      Init(s, bookId, doc, true, userStart).startPage == userStart.value
      && Init(s, bookId, doc, true, userStart).currentMin == Finite(userStart.value)
  {
    var s2 := ChooseStart(Reset(s), doc, userStart);
    assert s2.pending == {} && s2.processing == {} && s2.activePage == None;
    assert s2.completed == s.completed && s2.pageSlices == s.pageSlices;
    assert s2.savedFiles == s.savedFiles && s2.encodes == s.encodes;
    if s2.currentMin.Finite? {
      JumpFrame(s2, bookId, doc, s2.currentMin.n, false);
      assert Jump(s2, bookId, doc, s2.currentMin.n, false).pending == {};
      assert Jump(s2, bookId, doc, s2.currentMin.n, false).encodes == s.encodes;
    }
  }
}
