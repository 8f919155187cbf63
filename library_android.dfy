/** The Android library screen: the stored books, the filters the user has set, and the
    visible list that is always the stored list narrowed by those filters. */
module AndroidLibrary {
  import opened Wrappers
  import opened Seqs
  import opened Text
  import opened Dates
  import opened Entities
  import opened Repository

  const INT_MIN := -0x8000_0000
  const INT_MAX := 0x7FFF_FFFF

  /** Everything `applyFilters` reads besides the books. */
  datatype FilterState = FilterState(
    status: Option<string>,
    query: string,
    minPages: string,
    maxPages: string,
    startDate: string,
    endDate: string)

  const NoFilters := FilterState(None, "", "", "", "", "")

  /** `toIntOrNull`: an optional sign and decimal digits that fit a 32-bit `Int`. */
  function ToIntOrNull(s: string): (r: Option<int>)
    ensures r.Some? ==> INT_MIN <= r.value <= INT_MAX
    ensures r.Some? ==> |s| > 0
  {
    ParseInt(s, INT_MIN, INT_MAX)
  }

  /** The bound typed as a number is read as that number when it fits an `Int`, and is no
      bound when it does not. */
  lemma ToIntOrNullReadsNumber(n: int)
    ensures ToIntOrNull(IntToString(n)) == if INT_MIN <= n <= INT_MAX then Some(n) else None
  {
    if INT_MIN <= n <= INT_MAX {
      ParseIntToString(n, INT_MIN, INT_MAX);
    } else {
      ParseIntToString(n, n, n);
    }
  }

  predicate StatusPass(f: FilterState, b: Book) {
    f.status.None? || b.status == f.status
  }

  predicate QueryPass(f: FilterState, b: Book) {
    IsBlank(f.query) || ContainsIgnoreCase(b.title, f.query) ||
    (b.authors.Some? && ContainsIgnoreCase(b.authors.value, f.query))
  }

  predicate MinPass(f: FilterState, b: Book) {
    ToIntOrNull(f.minPages).None? || PagesOrZero(b) >= ToIntOrNull(f.minPages).value
  }

  predicate MaxPass(f: FilterState, b: Book) {
    ToIntOrNull(f.maxPages).None? || PagesOrZero(b) <= ToIntOrNull(f.maxPages).value
  }

  /** Dates are compared as text; for ISO dates that is the calendar order. */
  predicate StartPass(f: FilterState, b: Book) {
    IsBlank(f.startDate) || (b.endDate.Some? && LexLe(f.startDate, b.endDate.value))
  }

  predicate EndPass(f: FilterState, b: Book) {
    IsBlank(f.endDate) || (b.endDate.Some? && LexLe(b.endDate.value, f.endDate))
  }

  /** A book stays visible when it passes every filter that is set. */
  predicate Keep(f: FilterState, b: Book) {
    StatusPass(f, b) && QueryPass(f, b) && MinPass(f, b) && MaxPass(f, b) &&
    StartPass(f, b) && EndPass(f, b)
  }

  function KeepFn(f: FilterState): Book -> bool {
    (b: Book) => Keep(f, b)
  }

  /** The list the screen shows for the stored books `all` under the filters `f`. */
  function Visible(all: seq<Book>, f: FilterState): (r: seq<Book>)
    ensures forall b :: b in r <==> b in all && Keep(f, b)
  {
    Filter(all, KeepFn(f))
  }

  /** The books passing the status and text filters, and those also passing the page bounds:
      what the running result of `applyFilters` holds after its steps 2 and 3. */
  function TextStage(f: FilterState): Book -> bool {
    (b: Book) => StatusPass(f, b) && QueryPass(f, b)
  }

  function PageStage(f: FilterState): Book -> bool {
    (b: Book) => StatusPass(f, b) && QueryPass(f, b) && MinPass(f, b) && MaxPass(f, b)
  }

  /** Steps 1 and 2 of `applyFilters`: the status filter, then the text filter. */
  method ByStatusAndText(all: seq<Book>, f: FilterState) returns (result: seq<Book>)
    ensures result == Filter(all, TextStage(f))
  {
    ghost var k0 := (b: Book) => true;
    ghost var k1 := (b: Book) => StatusPass(f, b);
    FilterKeepsAll(all, k0);
    result := all;
    var wanted := f.status;
    result := FilterStep(result, all, wanted.Some?, (b: Book) => b.status == wanted, k0, k1);
    var q := f.query;
    result := FilterStep(result, all, !IsBlank(q),
                         (b: Book) => ContainsIgnoreCase(b.title, q) || (b.authors.Some? && ContainsIgnoreCase(b.authors.value, q)),
                         k1, TextStage(f));
  }

  /** Step 3: the lower and upper page bounds that parse as an `Int`. */
  method ByPages(all: seq<Book>, f: FilterState, current: seq<Book>) returns (result: seq<Book>)
    requires current == Filter(all, TextStage(f))
    ensures result == Filter(all, PageStage(f))
  {
    ghost var k3 := (b: Book) => StatusPass(f, b) && QueryPass(f, b) && MinPass(f, b);
    var minP := ToIntOrNull(f.minPages);
    var maxP := ToIntOrNull(f.maxPages);
    var lo, hi := minP.GetOr(0), maxP.GetOr(0);
    result := FilterStep(current, all, minP.Some?, (b: Book) => PagesOrZero(b) >= lo, TextStage(f), k3);
    result := FilterStep(result, all, maxP.Some?, (b: Book) => PagesOrZero(b) <= hi, k3, PageStage(f));
  }

  /** Step 4: the end date must be present and within the bounds that are not blank. */
  method ByDates(all: seq<Book>, f: FilterState, current: seq<Book>) returns (result: seq<Book>)
    requires current == Filter(all, PageStage(f))
    ensures result == Filter(all, KeepFn(f))
  {
    ghost var k5 := (b: Book) => StatusPass(f, b) && QueryPass(f, b) && MinPass(f, b) && MaxPass(f, b) &&
                                 StartPass(f, b);
    var from, until := f.startDate, f.endDate;
    result := FilterStep(current, all, !IsBlank(from), (b: Book) => b.endDate.Some? && LexLe(from, b.endDate.value),
                         PageStage(f), k5);
    result := FilterStep(result, all, !IsBlank(until), (b: Book) => b.endDate.Some? && LexLe(b.endDate.value, until),
                         k5, KeepFn(f));
  }

  /** Tapping the selected status chip again clears it. */
  function Toggle(current: Option<string>, chosen: Option<string>): Option<string> {
    if current == chosen then None else chosen
  }

  class LibraryViewModel {
    var allBooks: seq<Book>
    var books: seq<Book>
    var statusFilter: Option<string>
    var searchQuery: string
    var minPagesFilter: string
    var maxPagesFilter: string
    var startDateFilter: string
    var endDateFilter: string
    var selectedBook: Option<BookItem>

    function Filters(): FilterState
      reads this
    {
      FilterState(statusFilter, searchQuery, minPagesFilter, maxPagesFilter, startDateFilter, endDateFilter)
    }

    /** The visible list is the stored list narrowed by the current filters. */
    ghost predicate Valid()
      reads this
    {
      books == Visible(allBooks, Filters())
    }

    constructor ()
      ensures Valid() && allBooks == [] && books == []
      ensures Filters() == NoFilters && selectedBook.None?
    {
      allBooks, books := [], [];
      statusFilter, searchQuery := None, "";
      minPagesFilter, maxPagesFilter, startDateFilter, endDateFilter := "", "", "", "";
      selectedBook := None;
    }

    /** `applyFilters`: each filter that is set narrows the running result in turn. */
    method ApplyFilters()
      modifies this
      ensures Valid()
      ensures allBooks == old(allBooks) && Filters() == old(Filters()) && selectedBook == old(selectedBook)
    {
      var f := Filters();
      var result := ByStatusAndText(allBooks, f);
      result := ByPages(allBooks, f, result);
      result := ByDates(allBooks, f, result);
      books := result;
    }

    /** `loadLibrary`: the stored books, in store order, then the filters again. */
    method LoadLibrary(repo: BookRepository)
      modifies this
      ensures Valid() && allBooks == repo.books
      ensures Filters() == old(Filters()) && selectedBook == old(selectedBook)
    {
      allBooks := repo.GetAllBooks();
      ApplyFilters();
    }

    method OnStatusFilterChanged(newStatus: Option<string>)
      modifies this
      ensures Valid()
      ensures Filters() == old(Filters()).(status := Toggle(old(statusFilter), newStatus))
      ensures allBooks == old(allBooks) && selectedBook == old(selectedBook)
    {
      statusFilter := if statusFilter == newStatus then None else newStatus;
      ApplyFilters();
    }

    method OnSearchQueryChanged(newQuery: string)
      modifies this
      ensures Valid()
      ensures Filters() == old(Filters()).(query := newQuery)
      ensures allBooks == old(allBooks) && selectedBook == old(selectedBook)
    {
      searchQuery := newQuery;
      ApplyFilters();
    }

    method OnAdvancedFiltersChanged(minPages: string, maxPages: string, start: string, end: string)
      modifies this
      ensures Valid()
      ensures Filters() == FilterState(old(statusFilter), old(searchQuery), minPages, maxPages, start, end)
      ensures allBooks == old(allBooks) && selectedBook == old(selectedBook)
    {
      minPagesFilter, maxPagesFilter := minPages, maxPages;
      startDateFilter, endDateFilter := start, end;
      ApplyFilters();
    }

    /** Clearing every filter shows every stored book. */
    method ClearAllFilters()
      modifies this
      ensures Valid() && Filters() == NoFilters
      ensures books == allBooks
      ensures allBooks == old(allBooks) && selectedBook == old(selectedBook)
    {
      statusFilter, searchQuery := None, "";
      minPagesFilter, maxPagesFilter, startDateFilter, endDateFilter := "", "", "", "";
      ApplyFilters();
      ClearedShowsAll(allBooks);
    }

    /** `onBookClick`: `item` is the tapped book as a catalog item (`toBookItem`). */
    method OnBookClick(item: BookItem)
      modifies this
      ensures selectedBook == Some(item)
      ensures allBooks == old(allBooks) && books == old(books) && Filters() == old(Filters())
    {
      selectedBook := Some(item);
    }

    /** `updateSelectedBookStatus`: nothing is selected, nothing changes. */
    method UpdateSelectedBookStatus(status: string, start: Option<string>, end: Option<string>, rating: Option<int>)
      modifies this
      ensures selectedBook == if old(selectedBook).None? then None
                              else Some(WithReadingState(old(selectedBook).value, status, start, end, rating))
      ensures allBooks == old(allBooks) && books == old(books) && Filters() == old(Filters())
    {
      if selectedBook.Some? {
        selectedBook := Some(WithReadingState(selectedBook.value, status, start, end, rating));
      }
    }

    /** `startReading`: `today` is the ISO date the device clock gives. */
    method StartReading(repo: BookRepository, bookId: string, today: string)
      requires repo.Valid()
      modifies this, repo
      ensures repo.Valid() && Valid()
      ensures repo.books == UpdateWhere(old(repo.books), bookId,
                                        (b: Book) => b.(status := Some(IN_PROGRESS), startDate := Some(today), endDate := None))
      ensures repo.shelves == old(repo.shelves) && repo.members == old(repo.members)
      ensures allBooks == repo.books && Filters() == old(Filters())
      ensures selectedBook == if old(selectedBook).None? then None
                              else Some(WithReadingState(old(selectedBook).value, IN_PROGRESS, Some(today), None, None))
    {
      repo.UpdateBookStatus(bookId, IN_PROGRESS, Some(today), None);
      LoadLibrary(repo);
      UpdateSelectedBookStatus(IN_PROGRESS, Some(today), None, None);
    }

    /** `finishReading`: the start date is the one the selected book carries, if any. */
    method FinishReading(repo: BookRepository, bookId: string, rating: int, today: string)
      requires repo.Valid()
      modifies this, repo
      ensures repo.Valid() && Valid()
      ensures var start := if old(selectedBook).Some? then old(selectedBook).value.volumeInfo.myStartDate else None;
              repo.books == UpdateWhere(UpdateWhere(old(repo.books), bookId,
                                                    (b: Book) => b.(status := Some(COMPLETED), startDate := start, endDate := Some(today))),
                                        bookId, (b: Book) => b.(rating := Some(rating)))
      ensures repo.shelves == old(repo.shelves) && repo.members == old(repo.members)
      ensures allBooks == repo.books && Filters() == old(Filters())
      ensures selectedBook == if old(selectedBook).None? then None
                              else Some(WithReadingState(old(selectedBook).value, COMPLETED,
                                                         old(selectedBook).value.volumeInfo.myStartDate, Some(today), Some(rating)))
    {
      var start := if selectedBook.Some? then selectedBook.value.volumeInfo.myStartDate else None;
      repo.UpdateBookStatus(bookId, COMPLETED, start, Some(today));
      repo.UpdateBookRating(bookId, rating);
      LoadLibrary(repo);
      UpdateSelectedBookStatus(COMPLETED, start, Some(today), Some(rating));
    }

    method DeleteBook(repo: BookRepository, bookId: string)
      requires repo.Valid()
      modifies this, repo
      ensures repo.Valid() && Valid()
      ensures repo.books == Filter(old(repo.books), WithoutGid(bookId))
      ensures repo.members == set m | m in old(repo.members) && m.bookId != bookId
      ensures allBooks == repo.books && Filters() == old(Filters()) && selectedBook == old(selectedBook)
    {
      repo.DeleteBookById(bookId);
      LoadLibrary(repo);
    }
  }

  /** The visible list keeps the store's order and only drops books. */
  lemma VisibleIsSubsequence(all: seq<Book>, f: FilterState)
    ensures IsSubsequence(Visible(all, f), all) && |Visible(all, f)| <= |all|
  {
    FilterIsSubsequence(all, KeepFn(f));
  }

  /** With no filter set every stored book is shown, in order. */
  lemma ClearedShowsAll(all: seq<Book>)
    ensures Visible(all, NoFilters) == all
  {
    assert ToIntOrNull("").None?;
    FilterKeepsAll(all, KeepFn(NoFilters));
  }

  /** Filtering what is already filtered changes nothing. */
  lemma VisibleIdempotent(all: seq<Book>, f: FilterState)
    ensures Visible(Visible(all, f), f) == Visible(all, f)
  {
    var r := Visible(all, f);
    assert forall i :: 0 <= i < |r| ==> KeepFn(f)(r[i]) by {
      forall i | 0 <= i < |r| ensures KeepFn(f)(r[i]) {
        assert r[i] in r;
      }
    }
    FilterKeepsAll(r, KeepFn(f));
  }

  /** A bound that does not parse as an `Int` is the same as no bound. */
  lemma UnparsableBoundsIgnored(all: seq<Book>, f: FilterState)
    requires ToIntOrNull(f.minPages).None? && ToIntOrNull(f.maxPages).None?
    ensures Visible(all, f) == Visible(all, f.(minPages := "", maxPages := ""))
  {
    var g := f.(minPages := "", maxPages := "");
    assert ToIntOrNull("").None?;
    FilterExt(all, KeepFn(f), KeepFn(g));
  }

  /** Every shown book has the chosen status, lies within the page bounds that parse, and has
      its end date within the date bounds that are set. */
  lemma VisibleMeetsFilters(all: seq<Book>, f: FilterState, b: Book)
    requires b in Visible(all, f)
    ensures f.status.Some? ==> b.status == f.status
    ensures ToIntOrNull(f.minPages).Some? ==> PagesOrZero(b) >= ToIntOrNull(f.minPages).value
    ensures ToIntOrNull(f.maxPages).Some? ==> PagesOrZero(b) <= ToIntOrNull(f.maxPages).value
    ensures !IsBlank(f.startDate) ==> b.endDate.Some? && LexLe(f.startDate, b.endDate.value)
    ensures !IsBlank(f.endDate) ==> b.endDate.Some? && LexLe(b.endDate.value, f.endDate)
    ensures !IsBlank(f.query) ==> ContainsIgnoreCase(b.title, f.query) ||
                                  (b.authors.Some? && ContainsIgnoreCase(b.authors.value, f.query))
  {
  }

  /** A stored book that passes every filter is shown. */
  lemma VisibleIsComplete(all: seq<Book>, f: FilterState, b: Book)
    requires b in all && Keep(f, b)
    ensures b in Visible(all, f)
  {
  }

  /** When both the date bound and the end date are ISO dates, the text comparison is the
      calendar one: a book passes the start bound exactly when it ended on or after it. */
  lemma DateBoundsAreChronological(f: FilterState, b: Book)
    requires b.endDate.Some? && ParseIsoDate(b.endDate.value).Some?
    requires ParseIsoDate(f.startDate).Some? && ParseIsoDate(f.endDate).Some?
    ensures StartPass(f, b) <==>
            DayNumber(ParseIsoDate(f.startDate).value) <= DayNumber(ParseIsoDate(b.endDate.value).value)
    ensures EndPass(f, b) <==>
            DayNumber(ParseIsoDate(b.endDate.value).value) <= DayNumber(ParseIsoDate(f.endDate).value)
  {
    IsoNotBlank(f.startDate);
    IsoNotBlank(f.endDate);
    IsoOrderIsChronological(f.startDate, b.endDate.value);
    IsoOrderIsChronological(b.endDate.value, f.endDate);
  }

  lemma IsoNotBlank(s: string)
    requires ParseIsoDate(s).Some?
    ensures !IsBlank(s)
  {
    assert s[0] in s && !IsWhitespace(s[0]);
  }

  /** Choosing the same status twice returns to the start exactly when no other status was set
      before; choosing the set status clears it. */
  lemma ToggleTwice(current: Option<string>, chosen: Option<string>)
    ensures Toggle(Toggle(current, chosen), chosen) == current <==> current.None? || current == chosen
    ensures current == chosen ==> Toggle(current, chosen).None?
    ensures current != chosen ==> Toggle(current, chosen) == chosen
  {
  }
}
