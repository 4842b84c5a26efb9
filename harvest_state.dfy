/**
 * The page-harvesting state machine of wqharvester.user.js as values: the
 * module-level variables become one `State`, and every handler or timer
 * callback becomes a function from the state before to the state after.  The
 * class in harvester.dfy runs the same steps in place and is proved against
 * these functions; the lemmas below state what the steps promise.
 *
 * Page indices are integers throughout (the script mixes the attribute text
 * "5" and the number 5 as keys; see README).  The document is a parameter of
 * each step, read afresh every time, as the script re-queries the DOM.
 */
module HarvestState {
  import opened Wrappers
  import opened Decimal
  import opened SliceLayout
  import opened Navigation

  /** `currentMinPage`: `Infinity` until a page is chosen. */
  datatype Bound = Infinity | Finite(n: int)

  predicate Below(p: int, b: Bound) {
    b.Infinity? || p < b.n
  }

  /** A merge whose canvas is being encoded; its completion calls saveBlob. */
  datatype EncodeJob = EncodeJob(filename: string, page: int, canvas: Canvas)

  /** The armed settle timer of jumpToPage (at most one: a new jump clears the old). */
  datatype SettleTimer = SettleTimer(target: int, isRetry: bool)

  /**
   * `pageSlices`, `completedPages`, `pendingPages`, `processingPages`,
   * `activePage`, `isRunning`, `isInitialized`, `currentMinPage`, `startPage`
   * and `saveBlob.savedFiles`; plus what the browser holds for the script:
   * the files actually downloaded, encodes in flight, the 100 ms bookkeeping
   * timers of saveBlob (one page each, fired in order) and the settle timer.
   */
  datatype State = State(
    pageSlices: map<int, map<int, Slice>>,
    completed: set<int>,
    pending: set<int>,
    processing: set<int>,
    activePage: Option<int>,
    running: bool,
    initialized: bool,
    currentMin: Bound,
    startPage: int,
    savedFiles: set<string>,
    downloads: seq<string>,
    encodes: seq<EncodeJob>,
    saveTimers: seq<int>,
    settle: Option<SettleTimer>)

  /** The values the script starts with. */
  function Initial(): State {
    State(map[], {}, {}, {}, None, false, false, Infinity, 1, {}, [], [], [], None)
  }

  /** `{bookId}_page{pageIndex}.webp` */
  function FileName(bookId: string, page: int): string {
    bookId + "_page" + IntString(page) + ".webp"
  }

  /** One book never gets the same file name for two pages. */
  lemma FileNameInjective(bookId: string, p: int, q: int)
    requires FileName(bookId, p) == FileName(bookId, q)
    ensures p == q
  {
    var f, g := FileName(bookId, p), FileName(bookId, q);
    assert |IntString(p)| == |IntString(q)|;
    assert IntString(p) == f[|bookId| + 5..|f| - 5];
    assert IntString(q) == g[|bookId| + 5..|g| - 5];
    IntStringInjective(p, q);
  }

  function SlicesOf(s: State, page: int): map<int, Slice> {
    if page in s.pageSlices then s.pageSlices[page] else map[]
  }

  /**
   * One slice image arriving at offset `left` of a page: a new offset is stored
   * with count 1; a repeated offset keeps its first image and only counts up.
   */
  function RecordSlice(m: map<int, Slice>, left: int, width: nat, height: nat): (r: map<int, Slice>)
    ensures r.Keys == m.Keys + {left}
    ensures |r| == if left in m then |m| else |m| + 1
    ensures left in m ==> r[left] == m[left].(count := m[left].count + 1)
    ensures left !in m ==> r[left] == Slice(width, height, 1)
    ensures forall o :: o in m && o != left ==> r[o] == m[o]
  {
    if left in m then m[left := m[left].(count := m[left].count + 1)] else m[left := Slice(width, height, 1)]
  }

  /** A page is complete and not yet handled: the guard of checkPageCompletion. */
  predicate Ready(s: State, doc: Document, page: int) {
    var declared := SlotsOf(doc.boxes, page);
    declared > 0 && |SlicesOf(s, page)| >= declared && page !in s.completed && page !in s.pending
  }

  /** The guard of mergeAndSavePage. */
  predicate CanMerge(s: State, page: int) {
    page in s.pageSlices && |s.pageSlices[page]| > 0 && page !in s.completed && s.running
  }

  /** The encode a merge of `page` starts. */
  function MergeJob(s: State, bookId: string, page: int): EncodeJob
    requires page in s.pageSlices
  {
    EncodeJob(FileName(bookId, page), page, LayoutOf(Ordered(s.pageSlices[page])))
  }

  /** mergeAndSavePage: leave pending, lay out the slices in offset order, start the encode. */
  function Merge(s: State, bookId: string, page: int): State {
    if CanMerge(s, page) then
      s.(pending := s.pending - {page}, encodes := s.encodes + [MergeJob(s, bookId, page)])
    else s
  }

  /** checkPageCompletion: mark a complete page pending; merge it at once if it is the active page. */
  function Check(s: State, bookId: string, doc: Document, page: int): State {
    if Ready(s, doc, page) then
      var s1 := s.(pending := s.pending + {page});
      if s.activePage == Some(page) && s.running then Merge(s1, bookId, page) else s1
    else s
  }

  /**
   * jumpToPage: nothing when the page box is missing; otherwise merge at once a
   * pending target (while running) and arm the settle timer, replacing any
   * armed one.
   */
  function Jump(s: State, bookId: string, doc: Document, target: int, isRetry: bool): State {
    if target !in Indices(doc) then s
    else
      var s1 := if target in s.pending && s.running then Merge(s, bookId, target) else s;
      s1.(settle := Some(SettleTimer(target, isRetry)))
  }

  /** The bookkeeping part of processSliceImage: store the slice, a page seen first becomes processing. */
  function StoreSlice(s: State, page: int, left: int, width: nat, height: nat): State {
    s.(pageSlices := s.pageSlices[page := RecordSlice(SlicesOf(s, page), left, width, height)],
       processing := if page in s.pageSlices then s.processing else s.processing + {page})
  }

  /**
   * processSliceImage: record the slice, jump to the page if it is a new
   * lowest unfinished page, then check the page for completion.
   */
  function Record(s: State, bookId: string, doc: Document, page: int, left: int, width: nat, height: nat): State {
    if !s.running || page < s.startPage then s
    else
      var s1 := StoreSlice(s, page, left, width, height);
      var s2 := if Below(page, s1.currentMin) && page !in s1.completed
                then Jump(s1.(currentMin := Finite(page)), bookId, doc, page, false)
                else s1;
      Check(s2, bookId, doc, page)
  }

  /**
   * saveBlob: write the file unless its name was saved before; either way
   * schedule the same bookkeeping timer.
   */
  function SaveBlob(s: State, filename: string, page: int): State {
    if filename in s.savedFiles then
      s.(saveTimers := s.saveTimers + [page])
    else
      s.(savedFiles := s.savedFiles + {filename}, downloads := s.downloads + [filename],
         saveTimers := s.saveTimers + [page])
  }

  /** The encode number k finishes and hands its blob to saveBlob. */
  function Encoded(s: State, k: nat): State
    requires k < |s.encodes|
  {
    var job := s.encodes[k];
    SaveBlob(s.(encodes := s.encodes[..k] + s.encodes[k + 1..]), job.filename, job.page)
  }

  /** findAndJumpToNextPage: go to the smallest unfinished page, or end the run. */
  function FindNext(s: State, bookId: string, doc: Document): State {
    if !s.running then s
    else
      match NextPage(Indices(doc), s.startPage, s.completed)
      case Some(n) => Jump(s.(currentMin := Finite(n)), bookId, doc, n, false)
      case None => s.(running := false)
  }

  /** The oldest 100 ms timer of saveBlob fires: the page is completed, then the next page is sought. */
  function SaveDone(s: State, bookId: string, doc: Document): State
    requires s.saveTimers != []
  {
    var page := s.saveTimers[0];
    var s1 := s.(saveTimers := s.saveTimers[1..], completed := s.completed + {page},
                 processing := s.processing - {page});
    FindNext(s1, bookId, doc)
  }

  /** The settle check retries only far from the target (more than 2 pages) and only once. */
  predicate WantsRetry(sampled: Option<int>, t: SettleTimer) {
    sampled.Some? && (sampled.value - t.target > 2 || t.target - sampled.value > 2) && !t.isRetry
  }

  /** The 500 ms settle timer fires: retry the jump, or make the target the active page and check it. */
  function Settle(s: State, bookId: string, doc: Document): State {
    match s.settle
    case None => s
    case Some(t) =>
      var s0 := s.(settle := None);
      if WantsRetry(VisiblePage(doc), t) then Jump(s0, bookId, doc, t.target, true)
      else Check(s0.(activePage := Some(t.target)), bookId, doc, t.target)
  }

  /**
   * initScript.  A first run resets `currentMinPage`, `pendingPages`,
   * `processingPages` and `activePage` (completed pages, slices and saved file
   * names stay), takes the start page from the prompt, else the visible page,
   * else the first page box, and jumps there.  A later run only seeks the next
   * unfinished page.
   */
  function Init(s: State, bookId: string, doc: Document, isFirstTime: bool, userStart: Option<int>): State {
    if isFirstTime then
      var s2 := ChooseStart(Reset(s), doc, userStart);
      var s3 :=
        match s2.currentMin
        case Finite(n) => Jump(s2, bookId, doc, n, false)
        case Infinity => s2;
      s3.(initialized := true)
    else
      FindNext(s, bookId, doc).(initialized := true)
  }

  /** What a first run forgets. */
  function Reset(s: State): State {
    s.(currentMin := Infinity, pending := {}, processing := {}, activePage := None)
  }

  /** The start page of a first run: from the prompt, else the visible page, else the first page box. */
  function ChooseStart(s: State, doc: Document, userStart: Option<int>): State {
    match userStart
    case Some(n) => s.(startPage := n, currentMin := Finite(n))
    case None =>
      match VisiblePage(doc)
      case Some(v) => s.(startPage := v, currentMin := Finite(v))
      case None =>
        if |doc.boxes| > 0 then s.(startPage := doc.boxes[0].index, currentMin := Finite(doc.boxes[0].index))
        else s
  }

  /** The start button: only when not initialized or not running; sets running, then initScript. */
  function StartClicked(s: State, bookId: string, doc: Document, userStart: Option<int>): State {
    if !s.initialized || !s.running then Init(s.(running := true), bookId, doc, !s.initialized, userStart)
    else s
  }

  /** stopProcessing */
  function Stop(s: State): State {
    s.(running := false)
  }

  // ---------------------------------------------------------------------------
  // The invariant every step keeps

  predicate NoDuplicates(d: seq<string>) {
    forall i, j :: 0 <= i < j < |d| ==> d[i] != d[j]
  }

  /**
   * Every recorded page has a slice and every slice arrived at least once;
   * processing and pending pages have slices; the saved names are exactly the
   * downloaded files, each downloaded once; every encode and bookkeeping timer
   * and every completed page belongs to a saved file of this book.
   */
  ghost predicate Inv(s: State, bookId: string) {
    && SlicesInv(s.pageSlices, s.processing, s.pending)
    && EncodesInv(s.encodes, bookId)
    && FilesInv(s.savedFiles, s.downloads, s.saveTimers, s.completed, bookId)
  }

  ghost predicate SlicesInv(pageSlices: map<int, map<int, Slice>>, processing: set<int>, pending: set<int>) {
    && (forall p :: p in pageSlices ==> |pageSlices[p]| > 0)
    && (forall p, o :: p in pageSlices && o in pageSlices[p] ==> pageSlices[p][o].count > 0)
    && processing <= pageSlices.Keys
    && pending <= pageSlices.Keys
  }

  ghost predicate EncodesInv(encodes: seq<EncodeJob>, bookId: string) {
    forall k :: 0 <= k < |encodes| ==> encodes[k].filename == FileName(bookId, encodes[k].page)
  }

  ghost predicate FilesInv(savedFiles: set<string>, downloads: seq<string>, saveTimers: seq<int>, completed: set<int>, bookId: string) {
    && (forall f :: f in savedFiles <==> f in downloads)
    && NoDuplicates(downloads)
    && (forall k :: 0 <= k < |saveTimers| ==> FileName(bookId, saveTimers[k]) in savedFiles)
    && (forall p :: p in completed ==> FileName(bookId, p) in savedFiles)
  }

  lemma InitialInv(bookId: string)
    ensures Inv(Initial(), bookId)
  {
  }

  lemma MergeKeepsInv(s: State, bookId: string, page: int)
    requires Inv(s, bookId)
    ensures Inv(Merge(s, bookId, page), bookId)
  {
  }

  lemma CheckKeepsInv(s: State, bookId: string, doc: Document, page: int)
    requires Inv(s, bookId)
    ensures Inv(Check(s, bookId, doc, page), bookId)
  {
    if Ready(s, doc, page) {
      assert page in s.pageSlices;
      var s1 := s.(pending := s.pending + {page});
      MergeKeepsInv(s1, bookId, page);
    }
  }

  lemma JumpKeepsInv(s: State, bookId: string, doc: Document, target: int, isRetry: bool)
    requires Inv(s, bookId)
    ensures Inv(Jump(s, bookId, doc, target, isRetry), bookId)
  {
    MergeKeepsInv(s, bookId, target);
  }

  lemma StoreSliceKeepsInv(s: State, bookId: string, page: int, left: int, width: nat, height: nat)
    requires Inv(s, bookId)
    ensures Inv(StoreSlice(s, page, left, width, height), bookId)
  {
    var m := RecordSlice(SlicesOf(s, page), left, width, height);
    var r := StoreSlice(s, page, left, width, height);
    assert r.pageSlices == s.pageSlices[page := m];
    forall p, o | p in r.pageSlices && o in r.pageSlices[p]
      ensures r.pageSlices[p][o].count > 0
    {
      if p != page {
        assert r.pageSlices[p] == s.pageSlices[p];
      }
    }
  }

  lemma RecordKeepsInv(s: State, bookId: string, doc: Document, page: int, left: int, width: nat, height: nat)
    requires Inv(s, bookId)
    ensures Inv(Record(s, bookId, doc, page, left, width, height), bookId)
  {
    if s.running && page >= s.startPage {
      var s1 := StoreSlice(s, page, left, width, height);
      StoreSliceKeepsInv(s, bookId, page, left, width, height);
      JumpKeepsInv(s1.(currentMin := Finite(page)), bookId, doc, page, false);
      var s2 := if Below(page, s1.currentMin) && page !in s1.completed
                then Jump(s1.(currentMin := Finite(page)), bookId, doc, page, false)
                else s1;
      CheckKeepsInv(s2, bookId, doc, page);
    }
  }

  lemma SaveBlobKeepsInv(s: State, bookId: string, filename: string, page: int)
    requires Inv(s, bookId)
    requires filename == FileName(bookId, page)
    ensures Inv(SaveBlob(s, filename, page), bookId)
  {
  }

  lemma EncodedKeepsInv(s: State, bookId: string, k: nat)
    requires Inv(s, bookId)
    requires k < |s.encodes|
    ensures Inv(Encoded(s, k), bookId)
  {
    var rest := s.encodes[..k] + s.encodes[k + 1..];
    assert forall i :: 0 <= i < |rest| ==> rest[i] in s.encodes;
    SaveBlobKeepsInv(s.(encodes := rest), bookId, s.encodes[k].filename, s.encodes[k].page);
  }

  lemma FindNextKeepsInv(s: State, bookId: string, doc: Document)
    requires Inv(s, bookId)
    ensures Inv(FindNext(s, bookId, doc), bookId)
  {
    match NextPage(Indices(doc), s.startPage, s.completed)
    case Some(n) => JumpKeepsInv(s.(currentMin := Finite(n)), bookId, doc, n, false);
    case None =>
  }

  lemma SaveDoneKeepsInv(s: State, bookId: string, doc: Document)
    requires Inv(s, bookId)
    requires s.saveTimers != []
    ensures Inv(SaveDone(s, bookId, doc), bookId)
  {
    var page := s.saveTimers[0];
    var s1 := s.(saveTimers := s.saveTimers[1..], completed := s.completed + {page},
                 processing := s.processing - {page});
    assert Inv(s1, bookId);
    FindNextKeepsInv(s1, bookId, doc);
  }

  lemma SettleKeepsInv(s: State, bookId: string, doc: Document)
    requires Inv(s, bookId)
    ensures Inv(Settle(s, bookId, doc), bookId)
  {
    match s.settle
    case None =>
    case Some(t) =>
      var s0 := s.(settle := None);
      JumpKeepsInv(s0, bookId, doc, t.target, true);
      CheckKeepsInv(s0.(activePage := Some(t.target)), bookId, doc, t.target);
  }

  lemma InitKeepsInv(s: State, bookId: string, doc: Document, isFirstTime: bool, userStart: Option<int>)
    requires Inv(s, bookId)
    ensures Inv(Init(s, bookId, doc, isFirstTime, userStart), bookId)
  {
    if isFirstTime {
      var s1 := Reset(s);
      assert SlicesInv(s1.pageSlices, s1.processing, s1.pending);
      assert Inv(s1, bookId);
      var s2 := ChooseStart(s1, doc, userStart);
      assert s2.pageSlices == s1.pageSlices && s2.processing == s1.processing && s2.pending == s1.pending;
      assert s2.encodes == s1.encodes && s2.savedFiles == s1.savedFiles && s2.downloads == s1.downloads;
      assert s2.saveTimers == s1.saveTimers && s2.completed == s1.completed;
      assert Inv(s2, bookId);
      if s2.currentMin.Finite? {
        JumpKeepsInv(s2, bookId, doc, s2.currentMin.n, false);
      }
    } else {
      FindNextKeepsInv(s, bookId, doc);
    }
  }

  lemma StartClickedKeepsInv(s: State, bookId: string, doc: Document, userStart: Option<int>)
    requires Inv(s, bookId)
    ensures Inv(StartClicked(s, bookId, doc, userStart), bookId)
  {
    if !s.initialized || !s.running {
      InitKeepsInv(s.(running := true), bookId, doc, !s.initialized, userStart);
    }
  }

  lemma StopKeepsInv(s: State, bookId: string)
    requires Inv(s, bookId)
    ensures Inv(Stop(s), bookId)
  {
  }
}
