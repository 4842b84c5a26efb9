/**
 * The harvesting script of wqharvester.user.js as it runs: one object whose
 * fields are the script's module-level variables, updated in place by the
 * handlers and timer callbacks.  Every method is proved to make exactly the
 * step that HarvestState describes and to keep its invariant.
 */
module Harvester {
  import opened Wrappers
  import opened SliceLayout
  import opened Navigation
  import opened HarvestState

  class Harvester {
    /** `getBookId()`: fixed for the page the script runs on. */
    const bookId: string

    var pageSlices: map<int, map<int, Slice>>
    var completedPages: set<int>
    var pendingPages: set<int>
    var processingPages: set<int>
    var activePage: Option<int>
    var isRunning: bool
    var isInitialized: bool
    var currentMinPage: Bound
    var startPage: int
    /** `saveBlob.savedFiles` */
    var savedFiles: set<string>
    /** the files handed to the browser's download, in order */
    var downloads: seq<string>
    /** encodes started by a merge and not yet finished */
    var encodes: seq<EncodeJob>
    /** the 100 ms timers saveBlob has set, oldest first */
    var saveTimers: seq<int>
    /** `jumpTimeout` */
    var jumpTimer: Option<SettleTimer>

    ghost function Snapshot(): State
      reads this
    {
      State(pageSlices, completedPages, pendingPages, processingPages, activePage, isRunning,
            isInitialized, currentMinPage, startPage, savedFiles, downloads, encodes, saveTimers, jumpTimer)
    }

    ghost predicate Valid()
      reads this
    {
      Inv(Snapshot(), bookId)
    }

    constructor(bookId: string)
      ensures this.bookId == bookId
      ensures Snapshot() == Initial()
      ensures Valid()
    {
      this.bookId := bookId;
      pageSlices, completedPages, pendingPages, processingPages := map[], {}, {}, {};
      activePage, isRunning, isInitialized := None, false, false;
      currentMinPage, startPage := Infinity, 1;
      savedFiles, downloads, encodes, saveTimers, jumpTimer := {}, [], [], [], None;
      InitialInv(bookId);
    }

    /** The layout part of mergeAndSavePage: order the slices by offset and place them. */
    method PlanMerge(page: int) returns (job: EncodeJob)
      requires page in pageSlices
      ensures job == MergeJob(Snapshot(), bookId, page)
    {
      var sorted := Ordered(pageSlices[page]);
      var canvas := PlanLayout(sorted);
      job := EncodeJob(FileName(bookId, page), page, canvas);
    }

    /** mergeAndSavePage */
    method MergeAndSavePage(page: int)
      requires Valid()
      modifies this
      ensures Snapshot() == Merge(old(Snapshot()), bookId, page)
      ensures Valid()
    {
      ghost var s0 := Snapshot();
      if page !in pageSlices || |pageSlices[page]| == 0 || page in completedPages || !isRunning {
        return;
      }
      var job := PlanMerge(page);
      MergeKeepsInv(s0, bookId, page);
      pendingPages := pendingPages - {page};
      encodes := encodes + [job];
    }

    /** checkPageCompletion */
    method CheckPageCompletion(doc: Document, page: int)
      requires Valid()
      modifies this
      ensures Snapshot() == Check(old(Snapshot()), bookId, doc, page)
      ensures Valid()
    {
      ghost var s0 := Snapshot();
      var totalSlices := SlotsOf(doc.boxes, page);
      var currentSlices := if page in pageSlices then |pageSlices[page]| else 0;
      if totalSlices > 0 && currentSlices >= totalSlices && page !in completedPages && page !in pendingPages {
        pendingPages := pendingPages + {page};
        assert Snapshot() == s0.(pending := s0.pending + {page});
        assert Valid();
        if activePage == Some(page) && isRunning {
          MergeAndSavePage(page);
        }
      }
    }

    /** jumpToPage: the scroll itself is the browser's; what stays is the merge and the settle timer. */
    method JumpToPage(doc: Document, target: int, isRetry: bool)
      requires Valid()
      modifies this
      ensures Snapshot() == Jump(old(Snapshot()), bookId, doc, target, isRetry)
      ensures Valid()
    {
      ghost var s0 := Snapshot();
      if target !in Indices(doc) {
        return;
      }
      if target in pendingPages && isRunning {
        MergeAndSavePage(target);
      }
      jumpTimer := Some(SettleTimer(target, isRetry));
      JumpKeepsInv(s0, bookId, doc, target, isRetry);
    }

    /** The bookkeeping part of processSliceImage: store the slice image under its offset. */
    method StoreSliceImage(page: int, left: int, width: nat, height: nat)
      requires Valid()
      modifies this
      ensures Snapshot() == StoreSlice(old(Snapshot()), page, left, width, height)
      ensures Valid()
    {
      ghost var s0 := Snapshot();
      ghost var m0 := SlicesOf(s0, page);
      StoreSliceKeepsInv(s0, bookId, page, left, width, height);
      var slices := if page in pageSlices then pageSlices[page] else map[];
      assert slices == m0;
      if left in slices {
        slices := slices[left := slices[left].(count := slices[left].count + 1)];
        assert slices == m0[left := m0[left].(count := m0[left].count + 1)];
      } else {
        slices := slices[left := Slice(width, height, 1)];
        assert slices == m0[left := Slice(width, height, 1)];
      }
      if page !in pageSlices {
        processingPages := processingPages + {page};
      }
      pageSlices := pageSlices[page := slices];
      assert Snapshot() == StoreSlice(s0, page, left, width, height);
    }

    /** processSliceImage */
    method ProcessSliceImage(doc: Document, page: int, left: int, width: nat, height: nat)
      requires Valid()
      modifies this
      ensures Snapshot() == Record(old(Snapshot()), bookId, doc, page, left, width, height)
      ensures Valid()
    {
      if !isRunning || page < startPage {
        return;
      }
      StoreSliceImage(page, left, width, height);
      if Below(page, currentMinPage) && page !in completedPages {
        currentMinPage := Finite(page);
        JumpToPage(doc, page, false);
      }
      CheckPageCompletion(doc, page);
    }

    /** saveBlob: download a name not saved before, and set the bookkeeping timer either way. */
    method SaveBlob(filename: string, page: int)
      requires Valid()
      requires filename == FileName(bookId, page)
      modifies this
      ensures Snapshot() == HarvestState.SaveBlob(old(Snapshot()), filename, page)
      ensures Valid()
    {
      ghost var s0 := Snapshot();
      if filename in savedFiles {
        saveTimers := saveTimers + [page];
      } else {
        savedFiles := savedFiles + {filename};
        downloads := downloads + [filename];
        saveTimers := saveTimers + [page];
      }
      SaveBlobKeepsInv(s0, bookId, filename, page);
    }

    /** The encode number k delivers its blob (the `convertToBlob`/`toBlob` callback). */
    method OnEncoded(k: nat)
      requires Valid()
      requires k < |encodes|
      modifies this
      ensures Snapshot() == Encoded(old(Snapshot()), k)
      ensures Valid()
    {
      ghost var s0 := Snapshot();
      var job := encodes[k];
      encodes := encodes[..k] + encodes[k + 1..];
      EncodedKeepsInv(s0, bookId, k);
      assert forall i :: 0 <= i < |encodes| ==> encodes[i] in s0.encodes;
      SaveBlob(job.filename, job.page);
    }

    /** findAndJumpToNextPage */
    method FindAndJumpToNextPage(doc: Document)
      requires Valid()
      modifies this
      ensures Snapshot() == FindNext(old(Snapshot()), bookId, doc)
      ensures Valid()
    {
      ghost var s0 := Snapshot();
      if !isRunning {
        return;
      }
      var pages := Indices(doc);
      var next := NextUnfinishedPage(pages, startPage, completedPages);
      match next
      case Some(n) =>
        currentMinPage := Finite(n);
        JumpToPage(doc, n, false);
      case None =>
        isRunning := false;
    }

    /** The oldest 100 ms timer of saveBlob fires. */
    method OnSaveDone(doc: Document)
      requires Valid()
      requires saveTimers != []
      modifies this
      ensures Snapshot() == SaveDone(old(Snapshot()), bookId, doc)
      ensures Valid()
    {
      ghost var s0 := Snapshot();
      var page := saveTimers[0];
      saveTimers := saveTimers[1..];
      completedPages := completedPages + {page};
      processingPages := processingPages - {page};
      assert forall k :: 0 <= k < |saveTimers| ==> saveTimers[k] == s0.saveTimers[k + 1];
      FindAndJumpToNextPage(doc);
    }

    /** The 500 ms timer of jumpToPage fires. */
    method OnSettle(doc: Document)
      requires Valid()
      modifies this
      ensures Snapshot() == Settle(old(Snapshot()), bookId, doc)
      ensures Valid()
    {
      match jumpTimer
      case None =>
      case Some(t) =>
        jumpTimer := None;
        var currentPage := CurrentVisiblePage(doc);
        if WantsRetry(currentPage, t) {
          JumpToPage(doc, t.target, true);
        } else {
          activePage := Some(t.target);
          CheckPageCompletion(doc, t.target);
        }
    }

    /** The first-run part of initScript: forget the pending and processing pages and the active page. */
    method ResetRun()
      requires Valid()
      modifies this
      ensures Snapshot() == Reset(old(Snapshot()))
      ensures Valid()
    {
      currentMinPage := Infinity;
      pendingPages := {};
      processingPages := {};
      activePage := None;
    }

    /** The first-run part of initScript: choose the start page. */
    method ChooseStartPage(doc: Document, userStart: Option<int>)
      requires Valid()
      modifies this
      ensures Snapshot() == ChooseStart(old(Snapshot()), doc, userStart)
      ensures Valid()
    {
      match userStart {
        case Some(n) =>
          startPage := n;
          currentMinPage := Finite(n);
        case None =>
          var visible := CurrentVisiblePage(doc);
          match visible {
            case Some(v) =>
              startPage := v;
              currentMinPage := Finite(v);
            case None =>
              if |doc.boxes| > 0 {
                startPage := doc.boxes[0].index;
                currentMinPage := Finite(doc.boxes[0].index);
              }
          }
      }
    }

    /** initScript; `userStart` is the start page typed into the prompt, if any. */
    method InitScript(doc: Document, isFirstTime: bool, userStart: Option<int>)
      requires Valid()
      modifies this
      ensures Snapshot() == Init(old(Snapshot()), bookId, doc, isFirstTime, userStart)
      ensures Valid()
    {
      ghost var s := Snapshot();
      InitKeepsInv(s, bookId, doc, isFirstTime, userStart);
      if isFirstTime {
        ResetRun();
        ChooseStartPage(doc, userStart);
        ghost var s2 := Snapshot();
        assert s2 == ChooseStart(Reset(s), doc, userStart);
        match currentMinPage {
          case Finite(n) =>
            JumpToPage(doc, n, false);
            assert Snapshot() == Jump(s2, bookId, doc, n, false);
          case Infinity =>
        }
      } else {
        FindAndJumpToNextPage(doc);
      }
      isInitialized := true;
      assert Snapshot() == Init(s, bookId, doc, isFirstTime, userStart);
    }

    /** The start button. */
    method StartClicked(doc: Document, userStart: Option<int>)
      requires Valid()
      modifies this
      ensures Snapshot() == HarvestState.StartClicked(old(Snapshot()), bookId, doc, userStart)
      ensures Valid()
    {
      if !isInitialized || !isRunning {
        var firstTime := !isInitialized;
        isRunning := true;
        InitScript(doc, firstTime, userStart);
      }
    }

    /** stopProcessing */
    method StopProcessing()
      requires Valid()
      modifies this
      ensures Snapshot() == Stop(old(Snapshot()))
      ensures Valid()
    {
      isRunning := false;
    }
  }
}
