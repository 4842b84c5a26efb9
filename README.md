# Wenquan page harvester and baler: a verified model

Two programs turn a streaming page viewer into a PDF.

`wqharvester.user.js` is a userscript for the viewer. The viewer delivers every page as horizontal slice images that load lazily, in any order and sometimes more than once. The script:

- records each slice under its page and horizontal offset;
- detects when a page has all its declared slices;
- merges the active page's slices left to right into one canvas;
- saves the canvas as `{bookId}_page{index}.webp`, never writing a name twice;
- scrolls the viewer to the smallest unfinished page, re-scrolling once when the view settles too far from the target.

`wqbaler.py` is run afterwards. It:

- reads the book id and start page from a chosen page file's name;
- collects that book's page files and orders them by page number;
- builds a PDF from them;
- adds an outline from `{bookid}_toc.json`, mapping each entry's page number to a PDF page index.

## The model

The modules follow the two programs.

- `Wrappers`, `Decimal`: optional values; the decimal text of page numbers, as JavaScript writes it and Python's `int` reads it.
- `SliceLayout`: ordering a page's slices by offset, and the merge layout of `mergeAndSavePage`:
  - canvas width is the sum of the slice widths;
  - canvas height is the tallest slice;
  - each slice's x is the sum of the widths before it.
  
  `PlanLayout` is the two accumulating loops.
- `Navigation`: the document is a parameter, as the script re-reads the DOM each time. It holds the page boxes with their index, slot count and rectangle. The module covers:
  - `getCurrentVisiblePage`, as a loop proved equal to a fold;
  - the scan of `findAndJumpToNextPage`, as a loop proved equal to "the least unfinished page".
- `HarvestState`: the script's module-level variables as one `State` value. Every handler and timer callback becomes a function from state to state. `Inv` is the invariant every step keeps:
  - saved names are exactly the downloaded files;
  - no file is downloaded twice;
  - every completed page has its file saved.
- `HarvestProperties`: what the steps promise, stated over those functions.
- `Harvester`: the script as it runs. It is a class whose fields are the module-level variables, and each handler is a method updating them in place. Each method is proved to make exactly the corresponding `HarvestState` step and to keep `Inv`.
  - The browser's asynchronous parts are explicit methods that a caller invokes in any order:
    - `OnEncoded(k)`: an encode finishing;
    - `OnSaveDone`: the 100 ms bookkeeping timer of `saveBlob`, firing oldest first;
    - `OnSettle`: the 500 ms settle timer of `jumpToPage`. There is at most one, since a new jump clears the old.
  - `bookId` is a constructor argument, because `getBookId` reads the URL.
- `PageFiles`: the baler's `^(.*)_page(\d+)\.webp$` match, with Python's meaning of `.` and `$`. Also the book filter, the stable sort on page number, and the selection steps of `main` up to the empty-selection exit.
- `Bookmarks`: `add_bookmarks` as a pure plan. It returns the outline items as (title, page index, parent position) instead of calling PyPDF2.

Behaviour of the scripts worth knowing:

- **Completion can fire more than once.** A repeated completion check is a no-op only when the page is not the active page of a running harvest (`CheckIdempotent`). For the active page, the merge takes the page out of `pendingPages` before it is saved. A second check that arrives in that window merges it again (`ActivePageMergesAgainUntilSaved`). The second encode reaches `saveBlob` under a name already saved, so no second file is written (`SavingTwiceWritesOnce`). The page's bookkeeping runs twice.
- **`currentMinPage` can go up.** `findAndJumpToNextPage` sets it to whatever page the scan finds, which can be higher than before, and jumps there (`FindNextChoosesSmallest`). A slice of a lower unfinished page pulls it back down and jumps to that page (`RecordJumpsToNewMinimum`).
- **Gaps shift bookmarks.** The bookmark index is `page - start_page`. It names the right page file only when the page files run without a gap from the start page (`TargetIsNamedPage`). After a missing page file, later bookmarks land one PDF page further on per gap (`GapShiftsTargets`).

## Model

| member | source | states |
|---|---|---|
| Decimal.Dec | wqharvester.user.js:368 | the decimal text of a non-negative page index is a non-empty digit string |
| Decimal.IntString | wqharvester.user.js:368 | the text of an index is a digit string exactly when the index is non-negative |
| Decimal.ValueOfDec | wqbaler.py:35 | `int` of the printed index gives the index back |
| Decimal.IntStringInjective | wqharvester.user.js:368 | distinct indices print differently |
| SliceLayout.SortedKeys | wqharvester.user.js:342-344 | lists every offset of a page exactly once, in strictly increasing order |
| SliceLayout.SortedKeysUnique | wqharvester.user.js:342-344 | any strictly increasing listing of the offsets is that listing |
| SliceLayout.Ordered | wqharvester.user.js:342-344 | one slice per stored offset |
| SliceLayout.OrderedByOffset | wqharvester.user.js:342-344 | merge position k holds the slice stored at the k-th smallest offset |
| SliceLayout.LayoutOf | wqharvester.user.js:347-366 | one x position per slice |
| SliceLayout.OffsetsIndex | wqharvester.user.js:361-365 | the x position of slice k is the total width of the slices before it |
| SliceLayout.MaxHeightBounds | wqharvester.user.js:347-350 | the running maximum bounds every slice height and equals one of them; it is 0 for no slices |
| SliceLayout.LayoutMeaning | wqharvester.user.js:347-366 | first slice at x = 0, each next slice right after the previous, last slice ending at the canvas width, height the tallest slice |
| SliceLayout.PlanLayout | wqharvester.user.js:347-366 | the two accumulating loops compute exactly that layout |
| Navigation.Indices | wqharvester.user.js:436-441 | the index of every page box, in document order |
| Navigation.SlotsOf | wqharvester.user.js:305-314 | the declared slice count is the slot count of the first box with that index, and 0 when no box has the page |
| Navigation.VisibleHeight | wqharvester.user.js:200-212 | the visible height of a box is never negative |
| Navigation.BestUpToMeaning | wqharvester.user.js:201-215 | after each box the kept page is the first box with strictly greatest positive visible height so far, or none |
| Navigation.VisiblePageMeaning | wqharvester.user.js:194-217 | null exactly when no box is visible; otherwise the first box of greatest visible height |
| Navigation.CurrentVisiblePage | wqharvester.user.js:194-217 | the loop over the boxes returns that page |
| Navigation.NextPage | wqharvester.user.js:436-453 | none exactly when every page at or after the start page is completed; otherwise such an unfinished page, no larger than any other |
| Navigation.ScanFindsNext | wqharvester.user.js:442-453 | a scan of the sorted indices stops at the least unfinished page |
| Navigation.NextUnfinishedPage | wqharvester.user.js:436-453 | the collect, sort and scan loops return that page |
| HarvestState.FileNameInjective | wqharvester.user.js:368 | two pages of one book never share a file name |
| HarvestState.RecordSlice | wqharvester.user.js:279-286 | a new offset is added with count 1, a repeated one only counts up; other offsets are untouched |
| HarvestState.InitialInv | wqharvester.user.js:19-52 | the starting values satisfy the invariant |
| HarvestState.MergeKeepsInv | wqharvester.user.js:331-339 | a merge keeps the invariant |
| HarvestState.CheckKeepsInv | wqharvester.user.js:304-328 | a completion check keeps the invariant |
| HarvestState.JumpKeepsInv | wqharvester.user.js:220-270 | a jump keeps the invariant |
| HarvestState.StoreSliceKeepsInv | wqharvester.user.js:275-286 | storing a slice keeps every slice map non-empty with positive counts |
| HarvestState.RecordKeepsInv | wqharvester.user.js:273-301 | recording a slice keeps the invariant |
| HarvestState.SaveBlobKeepsInv | wqharvester.user.js:394-430 | saving keeps saved names equal to the downloads, each downloaded once |
| HarvestState.EncodedKeepsInv | wqharvester.user.js:370-387 | an encode completion keeps the invariant |
| HarvestState.FindNextKeepsInv | wqharvester.user.js:433-472 | the next-page search keeps the invariant |
| HarvestState.SaveDoneKeepsInv | wqharvester.user.js:400-429 | the save bookkeeping keeps every completed page's file saved |
| HarvestState.SettleKeepsInv | wqharvester.user.js:241-269 | the settle step keeps the invariant |
| HarvestState.InitKeepsInv | wqharvester.user.js:733-768 | initScript keeps the invariant |
| HarvestState.StartClickedKeepsInv | wqharvester.user.js:699-720 | the start button keeps the invariant |
| HarvestState.StopKeepsInv | wqharvester.user.js:558-559 | stopping keeps the invariant |
| HarvestProperties.MergeFrame | wqharvester.user.js:331-339 | a merge changes only pending pages and encodes |
| HarvestProperties.CheckFrame | wqharvester.user.js:304-328 | a completion check changes only pending pages and encodes |
| HarvestProperties.JumpFrame | wqharvester.user.js:220-241 | a jump changes only pending pages, encodes and the settle timer |
| HarvestProperties.RecordIgnoredWhenStopped | wqharvester.user.js:274 | a slice arriving while stopped, or for a page before the start page, changes nothing |
| HarvestProperties.RecordStoresSlice | wqharvester.user.js:275-300 | the slice is stored and a first-seen page becomes processing; the distinct count grows by one exactly for a new offset; completed pages and saved names stay |
| HarvestProperties.CheckCases | wqharvester.user.js:315-327 | not ready: nothing changes; ready: the page becomes pending; ready, active and running: it is merged at once and one encode of its layout starts |
| HarvestProperties.CheckIdempotent | wqharvester.user.js:315-321 | a second check of a page that is not being merged changes nothing |
| HarvestProperties.ActivePageMergesAgainUntilSaved | wqharvester.user.js:322-339 | a second check of the active page before its save starts a second encode |
| HarvestProperties.CompletedPageIsFinal | wqharvester.user.js:332-338 | a completed page is never merged or marked pending again |
| HarvestProperties.SaveBlobPaths | wqharvester.user.js:394-430 | both save paths schedule the same bookkeeping; only a name not saved before is downloaded and recorded |
| HarvestProperties.SavingTwiceWritesOnce | wqharvester.user.js:398-412 | two saves under one name write one file and schedule two bookkeeping timers |
| HarvestProperties.FindNextFrame | wqharvester.user.js:433-472 | the next-page search leaves completed, processing, slices and saved files alone |
| HarvestProperties.SaveDoneAfterEitherPath | wqharvester.user.js:400-428 | whichever path saved the page, its timer marks it completed and no longer processing |
| HarvestProperties.FindNextChoosesSmallest | wqharvester.user.js:433-471 | stopped: nothing changes; otherwise `currentMinPage` becomes the least unfinished page at or after the start and a first-attempt jump to it arms the settle timer, or the run ends when there is none |
| HarvestProperties.RecordJumpsToNewMinimum | wqharvester.user.js:293-299 | while running, a slice of an unfinished page below `currentMinPage` makes it the new minimum and jumps there (a first attempt, when the page has a box); any other slice leaves the minimum and the settle timer alone |
| HarvestProperties.RunEndsWhenAllCompleted | wqharvester.user.js:455-470 | when every page box from the start page on is completed, the run stops |
| HarvestProperties.SettleRule | wqharvester.user.js:245-268 | far from the target on a first attempt: jump again tagged as retry and keep the active page; otherwise, and always after a retry, the target becomes the active page |
| HarvestProperties.InitResets | wqharvester.user.js:734-745 | a first run clears pending, processing and the active page, keeps completed pages, slices, saved names and encodes; a prompted start page becomes the start page and `currentMinPage` |
| Harvester.Harvester.constructor | wqharvester.user.js:19-52 | the script's starting values, satisfying the invariant |
| Harvester.Harvester.PlanMerge | wqharvester.user.js:342-368 | the encode job names the page file of this book and carries the page's slices in offset order with their layout |
| Harvester.Harvester.MergeAndSavePage | wqharvester.user.js:331-392 | makes the merge step and keeps the invariant |
| Harvester.Harvester.CheckPageCompletion | wqharvester.user.js:304-328 | makes the completion-check step and keeps the invariant |
| Harvester.Harvester.JumpToPage | wqharvester.user.js:220-270 | makes the jump step and keeps the invariant |
| Harvester.Harvester.StoreSliceImage | wqharvester.user.js:275-286 | stores the slice in place as `StoreSlice` says and keeps the invariant |
| Harvester.Harvester.ProcessSliceImage | wqharvester.user.js:273-301 | makes the recording step and keeps the invariant |
| Harvester.Harvester.SaveBlob | wqharvester.user.js:394-430 | makes the save step and keeps the invariant |
| Harvester.Harvester.OnEncoded | wqharvester.user.js:370-387 | hands a finished encode to the save step and keeps the invariant |
| Harvester.Harvester.FindAndJumpToNextPage | wqharvester.user.js:433-472 | makes the next-page step and keeps the invariant |
| Harvester.Harvester.OnSaveDone | wqharvester.user.js:400-429 | makes the save bookkeeping step and keeps the invariant |
| Harvester.Harvester.OnSettle | wqharvester.user.js:241-269 | makes the settle step and keeps the invariant |
| Harvester.Harvester.ResetRun | wqharvester.user.js:734-738 | makes the partial reset of a first run |
| Harvester.Harvester.ChooseStartPage | wqharvester.user.js:739-759 | chooses the start page from the prompt, the visible page or the first box |
| Harvester.Harvester.InitScript | wqharvester.user.js:733-768 | makes the initScript step and keeps the invariant |
| Harvester.Harvester.StartClicked | wqharvester.user.js:699-720 | makes the start-button step and keeps the invariant |
| Harvester.Harvester.StopProcessing | wqharvester.user.js:558-559 | stops the run and keeps the invariant |
| PageFiles.TrailingDigits | wqbaler.py:29 | the longest run of digits ending the text |
| PageFiles.ParseComplete | wqbaler.py:29-35 | every name the pattern matches is read as its own book id and `int` of its digits |
| PageFiles.ParseSound | wqbaler.py:29-35 | a name is read only when the pattern matches it |
| PageFiles.ParseFailsOnlyWithoutMatch | wqbaler.py:29-32 | the name is rejected exactly when the pattern does not match |
| PageFiles.HarvestedNameParses | wqbaler.py:29-35 | a name the harvester writes is read back as the same book and page |
| PageFiles.Kept | wqbaler.py:44-49 | keeps at most one entry per listed name |
| PageFiles.PageFileOfMeaning | wqbaler.py:38-47 | a file is kept for a book exactly when it is named `{bookid}_page{digits}.webp` |
| PageFiles.KeptMeaning | wqbaler.py:44-49 | every kept entry is a listed page file of the book with its page number, and every such file is kept |
| PageFiles.CollectPageFiles | wqbaler.py:43-49 | the loop builds exactly the kept entries in listing order |
| PageFiles.Insert | wqbaler.py:50 | inserting adds exactly the one entry; the length grows by one |
| PageFiles.InsertSorted | wqbaler.py:50 | inserting into a page-ordered list keeps it ordered |
| PageFiles.InsertOfPage | wqbaler.py:50 | the new entry goes before the entries of its own page number |
| PageFiles.SortByPage | wqbaler.py:50 | ordered by page, a permutation, entries of one page number in listing order |
| PageFiles.SelectFiles | wqbaler.py:17-55 | no file chosen, a name that does not match, or no page files each stop the run; otherwise the chosen book, its start page and its page files sorted by page |
| PageFiles.SelectionMeaning | wqbaler.py:38-55 | a selection is ordered by page and holds exactly the listed files named `{bookid}_page{digits}.webp` |
| Bookmarks.Target | wqbaler.py:108-118 | a target exists exactly when the page text is a digit string landing on a PDF page; it is that page's index |
| Bookmarks.PlanItemsFollowsDocument | wqbaler.py:105-120 | one outline item per visited entry with a valid page, with its title and index, in document order |
| Bookmarks.PlanItemFollowsDocument | wqbaler.py:106-120 | an entry's items are its own then its descendants' |
| Bookmarks.PlanItemsParents | wqbaler.py:105-120 | every item is top-level, under the caller's parent, or under an earlier item of the same call; every index is a PDF page |
| Bookmarks.PlanItemParents | wqbaler.py:110-120 | the same for one entry and its descendants |
| Bookmarks.WalkUps | wqbaler.py:105-120 | in the reference walk of the entries, each entry records as its parent the position of the entry whose children list holds it, none at the top level |
| Bookmarks.WalkVisits | wqbaler.py:105-120 | the reference walk visits the entries in the order `add_bookmarks` does |
| Bookmarks.PlanItemsMatchWalk | wqbaler.py:105-120 | the items planned for a stretch of the walk are its valid entries in order, each numbered by its rank among the valid entries |
| Bookmarks.PlanNesting | wqbaler.py:110-120 | one item per valid entry, at its rank; its parent is the item of its parent entry when that entry is valid, otherwise top level |
| Bookmarks.Plan | wqbaler.py:105-123 | every item's index is a PDF page and every parent is an earlier item |
| Bookmarks.GapShiftsTargets | wqbaler.py:110-113 | with page files 1, 2 and 4 from start page 1, the entry for page 3 lands on the file of page 4 and the entry for page 4 has no target |
| Bookmarks.TargetIsNamedPage | wqbaler.py:112-113 | with gap-free page files from the start page, an item lands on the file its entry names, and every such file can be a target |

## Left out

- Panel, status text, progress bar and notices (`addEnhancedUI`, `showNotice`, `updateStatusDisplay`, `updateCurrentPageInfo`, `updateProgressBar`, `updateMergedProgress`): display only.
- `MutationObserver` setup, image `load` listeners, `processExistingImages` and `checkReloadButton`. They only produce `processSliceImage` calls, which the model takes as inputs.
- `getBookId` reads the URL. The book id is a constructor argument.
- The prompt in `initScript` becomes the optional `userStart` argument. The `parseInt` text rules of the prompt are not modelled.
- Scrolling, canvas drawing, WebP encoding and the Blob/anchor download: the model keeps the layout, the file name and the list of downloads.
- A failing draw or encode (the `catch` in `mergeAndSavePage`) is not modelled; every encode completes.
- Page box rectangles, `window.scrollY` and `window.innerHeight` (wqharvester.user.js:197-210) are floats. `Navigation` models them as integers, since only their sums, differences and comparisons decide the visible page.
- Slice offsets are floats (`parseFloat(style.left) || 0`). They are modelled as integers, since only their order and equality matter. Slice widths and heights are natural numbers.
- Page indices are integers throughout. The script mixes the attribute text ("5") and numbers (5) as keys of its sets. The settle step passes a number where the slice handler passes text, so a page completed through the settle path may be stored under a number while `findAndJumpToNextPage` looks it up as text. The model does not reproduce this key mismatch.
- Timing: timers are explicit steps. Their real delays, and interleavings that depend on them, are not modelled beyond the caller choosing the order of steps.
- `NextUnfinishedPage`: like the script, it sorts the collected indices. Duplicate indices collapse, which does not change the page found.
- The baler's glob takes the book id literally. Glob metacharacters in a book id, and hidden-file rules, are not modelled.
- The baler's directory paths, the dialog, PIL loading and colour conversion, PDF rendering, PyPDF2 writing and JSON reading are not modelled. The listing and the table of contents are inputs. The number of PDF pages is an input; it equals the number of selected files when every image loads.
- An image that fails to load shrinks the PDF, and the "no usable images" exit (wqbaler.py:59-75) is not modelled.
- Without `{bookid}_toc.json` no outline is written (wqbaler.py:89-91, 132-138). The plan models the outline only.
- `Decimal.Value`, `PageFiles.Parse`: only ASCII digits are read. Python's `\d` and `str.isdigit` also accept other Unicode digits, for which `int` may fail.
- `Bookmarks.Target`: a JSON `page` that is not a string (Python raises on `.isdigit()`), a `name` that is `null`, and entries or a top level that are not JSON objects and lists are not modelled.
