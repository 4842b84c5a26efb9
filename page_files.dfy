/**
 * The baler's side of the file names: reading `{bookid}_page{pagenum}.webp`
 * back with the pattern `^(.*)_page(\d+)\.webp$`, collecting the page files
 * of one book from a directory listing, and ordering them by page number.
 */
module PageFiles {
  import opened Wrappers
  import opened Decimal
  import HarvestState

  /** What a matching file name says: the book and the page number. */
  datatype PageFile = PageFile(bookid: string, page: nat)

  predicate EndsWith(s: string, suffix: string) {
    |suffix| <= |s| && s[|s| - |suffix|..] == suffix
  }

  /** The longest run of digits at the end of `s`. */
  function TrailingDigits(s: string): (r: string)
    ensures |r| <= |s| && r == s[|s| - |r|..]
    ensures AllDigits(r)
    ensures |r| < |s| ==> !IsDigit(s[|s| - |r| - 1])
  {
    if s != [] && IsDigit(s[|s| - 1]) then TrailingDigits(s[..|s| - 1]) + [s[|s| - 1]] else []
  }

  /**
   * The pattern match as Python's `re.match` performs it: `.` does not match a
   * line break, and `$` matches at the end or just before one final "\n".
   */
  ghost predicate Matches(name: string, bookid: string, digits: string) {
    && IsDigitString(digits)
    && '\n' !in bookid
    && (name == bookid + "_page" + digits + ".webp" || name == bookid + "_page" + digits + ".webp\n")
  }

  /** `re.match(r"^(.*)_page(\d+)\.webp$", name)` and `int(m.group(2))`. */
  function Parse(name: string): Option<PageFile> {
    ParseBody(if |name| > 0 && name[|name| - 1] == '\n' then name[..|name| - 1] else name)
  }

  /** The pattern on the name with its final line break, if any, removed. */
  function ParseBody(body: string): Option<PageFile> {
    if !EndsWith(body, ".webp") then None
    else
      var core := body[..|body| - 5];
      var digits := TrailingDigits(core);
      var prefix := core[..|core| - |digits|];
      if |digits| == 0 || !EndsWith(prefix, "_page") then None
      else
        var bookid := prefix[..|prefix| - 5];
        if '\n' in bookid then None else Some(PageFile(bookid, Value(digits)))
  }

  lemma {:induction false} TrailingDigitsAfter(p: string, d: string)
    requires AllDigits(d)
    requires p == [] || !IsDigit(p[|p| - 1])
    ensures TrailingDigits(p + d) == d
  {
    if d == [] {
      assert p + d == p;
    } else {
      var d0 := d[..|d| - 1];
      var c := d[|d| - 1];
      assert p + d == (p + d0) + [c];
      TrailingDigitsAfter(p, d0);
      TrailingDigitsSnoc(p + d0, c);
      assert d == d0 + [c];
    }
  }

  /** One more digit at the end extends the trailing run by that digit. */
  lemma TrailingDigitsSnoc(s: string, c: char)
    requires IsDigit(c)
    ensures TrailingDigits(s + [c]) == TrailingDigits(s) + [c]
  {
    assert (s + [c])[..|s|] == s;
  }

  lemma ParseBodyComplete(bookid: string, digits: string)
    requires IsDigitString(digits) && '\n' !in bookid
    ensures ParseBody(bookid + "_page" + digits + ".webp") == Some(PageFile(bookid, Value(digits)))
  {
    var body := bookid + "_page" + digits + ".webp";
    var core := bookid + "_page" + digits;
    assert body[..|body| - 5] == core;
    TrailingDigitsAfter(bookid + "_page", digits);
    assert core[..|core| - |digits|] == bookid + "_page";
  }

  lemma MatchesParts(name: string, bookid: string, digits: string, body: string)
    requires Matches(name, bookid, digits) && body == bookid + "_page" + digits + ".webp"
    ensures IsDigitString(digits) && '\n' !in bookid && (name == body || name == body + "\n")
  {
  }

  /** Every name the pattern matches is read with its own book and page. */
  lemma ParseComplete(name: string, bookid: string, digits: string)
    requires Matches(name, bookid, digits)
    ensures Parse(name) == Some(PageFile(bookid, Value(digits)))
  {
    var body := bookid + "_page" + digits + ".webp";
    MatchesParts(name, bookid, digits, body);
    ParseBodyComplete(bookid, digits);
    if name == body {
      assert name[|name| - 1] == 'p';
    } else {
      assert name == body + "\n";
      assert name[..|name| - 1] == body;
    }
  }

  lemma ParseBodySound(body: string) returns (digits: string)
    requires ParseBody(body).Some?
    ensures IsDigitString(digits) && '\n' !in ParseBody(body).value.bookid
    ensures body == ParseBody(body).value.bookid + "_page" + digits + ".webp"
    ensures Value(digits) == ParseBody(body).value.page
  {
    var core := body[..|body| - 5];
    digits := TrailingDigits(core);
    var prefix := core[..|core| - |digits|];
    var bookid := prefix[..|prefix| - 5];
    assert prefix == bookid + "_page";
    assert core == prefix + digits;
    assert body == core + ".webp";
  }

  lemma NewlineBodyMatches(body: string) returns (digits: string)
    requires ParseBody(body).Some?
    ensures Matches(body + "\n", ParseBody(body).value.bookid, digits)
    ensures Value(digits) == ParseBody(body).value.page
  {
    var bookid := ParseBody(body).value.bookid;
    digits := ParseBodySound(body);
    assert body + "\n" == bookid + "_page" + digits + ".webp\n";
  }

  /** Parse only succeeds on names the pattern matches. */
  lemma ParseSound(name: string)
    requires Parse(name).Some?
    ensures exists digits :: Matches(name, Parse(name).value.bookid, digits) && Value(digits) == Parse(name).value.page
  {
    if |name| > 0 && name[|name| - 1] == '\n' {
      var body := name[..|name| - 1];
      assert name == body + "\n";
      assert Parse(name) == ParseBody(body);
      var digits := NewlineBodyMatches(body);
    } else {
      assert Parse(name) == ParseBody(name);
      var digits := ParseBodySound(name);
      assert Matches(name, Parse(name).value.bookid, digits);
    }
  }

  /** The pattern fails exactly when Parse says so. */
  lemma ParseFailsOnlyWithoutMatch(name: string)
    ensures Parse(name).None? <==> forall bookid, digits :: !Matches(name, bookid, digits)
  {
    if Parse(name).Some? {
      ParseSound(name);
    } else {
      forall bookid, digits | Matches(name, bookid, digits)
        ensures false
      {
        ParseComplete(name, bookid, digits);
      }
    }
  }

  /** The names the harvester writes are read back as the same book and page. */
  lemma HarvestedNameParses(bookid: string, page: int)
    requires page >= 0 && '\n' !in bookid
    ensures Parse(HarvestState.FileName(bookid, page)) == Some(PageFile(bookid, page))
  {
    var digits := IntString(page);
    ValueOfDec(page);
    ParseComplete(HarvestState.FileName(bookid, page), bookid, digits);
  }

  // ---------------------------------------------------------------------------
  // Choosing the files of one book

  /**
   * `glob("{bookid}_page*.webp")` on a name of the directory, taking the book
   * id literally: the name starts with `{bookid}_page` and ends with `.webp`,
   * the two not overlapping.
   */
  predicate GlobMatches(name: string, bookid: string) {
    |bookid| + 10 <= |name| && name[..|bookid| + 5] == bookid + "_page" && EndsWith(name, ".webp")
  }

  /** Listed by the glob and read by the pattern as a page of this very book. */
  predicate IsPageFileOf(name: string, bookid: string) {
    GlobMatches(name, bookid) && Parse(name).Some? && Parse(name).value.bookid == bookid
  }

  /** One entry of `file_info`: the page number and the file. */
  datatype PageEntry = PageEntry(page: nat, name: string)

  /** `file_info` before sorting: the page files of `bookid`, in listing order. */
  function Kept(listing: seq<string>, bookid: string): (r: seq<PageEntry>)
    ensures |r| <= |listing|
  {
    if listing == [] then []
    else
      var name := listing[|listing| - 1];
      Kept(listing[..|listing| - 1], bookid) +
        (if IsPageFileOf(name, bookid) then [PageEntry(Parse(name).value.page, name)] else [])
  }

  /** The files kept for a book are exactly those named `{bookid}_page{digits}.webp`. */
  lemma PageFileOfMeaning(name: string, bookid: string)
    requires '\n' !in bookid
    ensures IsPageFileOf(name, bookid) <==>
      exists digits :: IsDigitString(digits) && name == bookid + "_page" + digits + ".webp"
  {
    if IsPageFileOf(name, bookid) {
      ParseSound(name);
      var digits :| Matches(name, bookid, digits);
      assert name[|name| - 1] == 'p';
      assert name != bookid + "_page" + digits + ".webp\n";
    }
    if exists digits :: IsDigitString(digits) && name == bookid + "_page" + digits + ".webp" {
      var digits :| IsDigitString(digits) && name == bookid + "_page" + digits + ".webp";
      assert Matches(name, bookid, digits);
      ParseComplete(name, bookid, digits);
      assert name[..|bookid| + 5] == bookid + "_page";
    }
  }

  /** Every kept entry is a listed page file of the book with its own page number, and every such file is kept. */
  lemma {:induction false} KeptMeaning(listing: seq<string>, bookid: string)
    ensures forall e :: e in Kept(listing, bookid) ==>
      e.name in listing && IsPageFileOf(e.name, bookid) && e.page == Parse(e.name).value.page
    ensures forall name :: name in listing && IsPageFileOf(name, bookid) ==>
      PageEntry(Parse(name).value.page, name) in Kept(listing, bookid)
  {
    if listing != [] {
      var init := listing[..|listing| - 1];
      KeptMeaning(init, bookid);
      assert listing == init + [listing[|listing| - 1]];
    }
  }

  /** The loop of wqbaler.py:44-49, collecting `file_info`. */
  method CollectPageFiles(listing: seq<string>, bookid: string) returns (fileInfo: seq<PageEntry>)
    ensures fileInfo == Kept(listing, bookid)
  {
    fileInfo := [];
    for i := 0 to |listing|
      invariant fileInfo == Kept(listing[..i], bookid)
    {
      assert listing[..i + 1][..i] == listing[..i];
      var base := listing[i];
      var m2 := Parse(base);
      if GlobMatches(base, bookid) && m2.Some? && m2.value.bookid == bookid {
        fileInfo := fileInfo + [PageEntry(m2.value.page, base)];
      }
    }
    assert listing[..|listing|] == listing;
  }

  // ---------------------------------------------------------------------------
  // `file_info.sort(key=lambda x: x[0])`: a stable sort on the page number

  predicate SortedByPage(s: seq<PageEntry>) {
    forall i, j :: 0 <= i < j < |s| ==> s[i].page <= s[j].page
  }

  /** The entries for one page number, in order. */
  function OfPage(s: seq<PageEntry>, page: nat): seq<PageEntry>
  {
    if s == [] then []
    else (if s[0].page == page then [s[0]] else []) + OfPage(s[1..], page)
  }

  /** Put `x` before the first entry whose page is not smaller. */
  function Insert(x: PageEntry, t: seq<PageEntry>): (r: seq<PageEntry>)
    ensures multiset(r) == multiset(t) + multiset{x}
    ensures |r| == |t| + 1 && (r[0] == x || (t != [] && r[0] == t[0]))
  {
    if t == [] || x.page <= t[0].page then [x] + t
    else
      assert t == [t[0]] + t[1..];
      [t[0]] + Insert(x, t[1..])
  }

  lemma {:induction false} InsertSorted(x: PageEntry, t: seq<PageEntry>)
    requires SortedByPage(t)
    ensures SortedByPage(Insert(x, t))
  {
    if t != [] && x.page > t[0].page {
      var rest := Insert(x, t[1..]);
      InsertSorted(x, t[1..]);
      var r := [t[0]] + rest;
      assert t[0].page <= rest[0].page;
      forall i, j | 0 <= i < j < |r|
        ensures r[i].page <= r[j].page
      {
        if i == 0 {
          assert rest[0].page <= rest[j - 1].page;
        } else {
          assert r[i] == rest[i - 1] && r[j] == rest[j - 1];
        }
      }
    }
  }

  lemma OfPageCons(e: PageEntry, s: seq<PageEntry>, page: nat)
    ensures OfPage([e] + s, page) == (if e.page == page then [e] else []) + OfPage(s, page)
  {
    assert ([e] + s)[1..] == s;
  }

  lemma {:induction false} InsertOfPage(x: PageEntry, t: seq<PageEntry>, page: nat)
    ensures OfPage(Insert(x, t), page) == (if x.page == page then [x] else []) + OfPage(t, page)
  {
    if t == [] || x.page <= t[0].page {
      OfPageCons(x, t, page);
    } else {
      var rest := Insert(x, t[1..]);
      assert Insert(x, t) == [t[0]] + rest;
      assert t == [t[0]] + t[1..];
      InsertOfPage(x, t[1..], page);
      OfPageCons(t[0], rest, page);
      OfPageCons(t[0], t[1..], page);
      if t[0].page == page {
        assert x.page != page;
        assert OfPage(Insert(x, t), page) == [t[0]] + OfPage(t[1..], page);
      } else {
        assert OfPage(Insert(x, t), page) == OfPage(rest, page);
        assert OfPage(t, page) == OfPage(t[1..], page);
      }
    }
  }

  /**
   * A stable sort by page number: sorted, a permutation, and the entries of
   * each page number keep their listing order.
   */
  function SortByPage(s: seq<PageEntry>): (r: seq<PageEntry>)
    ensures SortedByPage(r)
    ensures multiset(r) == multiset(s)
    ensures forall page :: OfPage(r, page) == OfPage(s, page)
  {
    if s == [] then []
    else
      var rest := SortByPage(s[1..]);
      assert s == [s[0]] + s[1..];
      InsertSorted(s[0], rest);
      assert forall page :: OfPage(Insert(s[0], rest), page) == OfPage(s, page) by {
        forall page ensures OfPage(Insert(s[0], rest), page) == OfPage(s, page) {
          InsertOfPage(s[0], rest, page);
        }
      }
      Insert(s[0], rest)
  }

  // ---------------------------------------------------------------------------
  // wqbaler.py:17-55: from the chosen file to the ordered list of page files

  datatype Selection =
    | NoFileChosen
    | BadFileName
    | NoPageFiles
    | Selected(bookid: string, startPage: nat, files: seq<PageEntry>)

  /**
   * `chosen` is the base name of the file picked in the dialog ("" when the
   * dialog was cancelled); `listing` is the directory holding it.
   */
  method SelectFiles(chosen: string, listing: seq<string>) returns (r: Selection)
    ensures chosen == [] ==> r == NoFileChosen
    ensures chosen != [] && Parse(chosen).None? ==> r == BadFileName
    ensures chosen != [] && Parse(chosen).Some? ==>
      var book := Parse(chosen).value;
      var files := SortByPage(Kept(listing, book.bookid));
      r == if files == [] then NoPageFiles else Selected(book.bookid, book.page, files)
  {
    if chosen == [] {
      return NoFileChosen;
    }
    var m := Parse(chosen);
    if m.None? {
      return BadFileName;
    }
    var fileInfo := CollectPageFiles(listing, m.value.bookid);
    var sorted := SortByPage(fileInfo);
    if |sorted| == 0 {
      return NoPageFiles;
    }
    return Selected(m.value.bookid, m.value.page, sorted);
  }

  /** A selection holds page files of the chosen book only, ordered by page, each listed once per listing entry. */
  lemma SelectionMeaning(chosen: string, listing: seq<string>, bookid: string, startPage: nat, files: seq<PageEntry>)
    requires chosen != [] && Parse(chosen) == Some(PageFile(bookid, startPage))
    requires files == SortByPage(Kept(listing, bookid))
    ensures SortedByPage(files)
    ensures forall e :: e in files ==>
      e.name in listing && (exists digits :: IsDigitString(digits) && e.name == bookid + "_page" + digits + ".webp")
    ensures forall name :: name in listing && (exists digits :: IsDigitString(digits) && name == bookid + "_page" + digits + ".webp") ==>
      exists e :: e in files && e.name == name
  {
    ParseSound(chosen);
    assert '\n' !in bookid;
    SelectedAreListedPageFiles(listing, bookid, files);
    ListedPageFilesAreSelected(listing, bookid, files);
  }

  lemma SameMembers(files: seq<PageEntry>, kept: seq<PageEntry>)
    requires multiset(files) == multiset(kept)
    ensures forall e :: e in files <==> e in kept
  {
    forall e ensures e in files <==> e in kept {
      assert e in files <==> e in multiset(files);
      assert e in kept <==> e in multiset(kept);
    }
  }

  lemma SelectedAreListedPageFiles(listing: seq<string>, bookid: string, files: seq<PageEntry>)
    requires '\n' !in bookid && files == SortByPage(Kept(listing, bookid))
    ensures forall e :: e in files ==>
      e.name in listing && (exists digits :: IsDigitString(digits) && e.name == bookid + "_page" + digits + ".webp")
  {
    KeptMeaning(listing, bookid);
    SameMembers(files, Kept(listing, bookid));
    forall e | e in files
      ensures e.name in listing && (exists digits :: IsDigitString(digits) && e.name == bookid + "_page" + digits + ".webp")
    {
      PageFileOfMeaning(e.name, bookid);
    }
  }

  lemma ListedPageFilesAreSelected(listing: seq<string>, bookid: string, files: seq<PageEntry>)
    requires '\n' !in bookid && files == SortByPage(Kept(listing, bookid))
    ensures forall name :: name in listing && (exists digits :: IsDigitString(digits) && name == bookid + "_page" + digits + ".webp") ==>
      exists e :: e in files && e.name == name
  {
    KeptMeaning(listing, bookid);
    SameMembers(files, Kept(listing, bookid));
    forall name | name in listing && (exists digits :: IsDigitString(digits) && name == bookid + "_page" + digits + ".webp")
      ensures exists e :: e in files && e.name == name
    {
      PageFileOfMeaning(name, bookid);
      assert PageEntry(Parse(name).value.page, name) in files;
    }
  }
}
