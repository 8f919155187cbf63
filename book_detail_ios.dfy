/** The iOS book-detail screen: one catalog item shown with its reading state, moved along
    PENDING, IN_PROGRESS and COMPLETED by the screen's action button. */
module IosBookDetail {
  import opened Wrappers
  import opened Seqs
  import opened Entities
  import opened Repository
  import opened IosSearch

  const DEFAULT_RATING := 5

  /** What the action button does for the status the shown item carries. */
  datatype Action = Save | Start | AskRating | NoAction

  /** `handleAction`: an item not yet stored (opened from a search) is saved, a pending one is
      started, one being read asks for a rating; anything else does nothing. */
  function ChooseAction(isLibraryMode: bool, status: Option<string>): (r: Action)
    ensures r == Save <==> !isLibraryMode && status.None?
    ensures r == Start <==> status == Some(PENDING)
    ensures r == AskRating <==> status == Some(IN_PROGRESS)
    ensures r == NoAction <==> (isLibraryMode && status.None?) ||
                               (status.Some? && status != Some(PENDING) && status != Some(IN_PROGRESS))
  {
    if !isLibraryMode && status.None? then Save
    else if status == Some(PENDING) then Start
    else if status == Some(IN_PROGRESS) then AskRating
    else NoAction
  }

  /** Position in the reading lifecycle: not stored, pending, reading, finished. */
  function Stage(status: Option<string>): int {
    if status.None? then 0
    else if status == Some(PENDING) then 1
    else if status == Some(IN_PROGRESS) then 2
    else if status == Some(COMPLETED) then 3
    else -1
  }

  class BookDetailViewModel {
    var book: BookItem
    var showRatingDialog: bool
    var rating: int

    constructor (book: BookItem)
      ensures this.book == book && !showRatingDialog && rating == DEFAULT_RATING
    {
      this.book := book;
      showRatingDialog := false;
      rating := DEFAULT_RATING;
    }

    /** `refreshLocalBook`: the shown item gets the new reading state; its catalog fields stay. */
    method RefreshLocalBook(status: string, startDate: Option<string>, endDate: Option<string>, newRating: Option<int>)
      modifies this
      ensures book == WithReadingState(old(book), status, startDate, endDate, newRating)
      ensures showRatingDialog == old(showRatingDialog) && rating == old(rating)
    {
      book := WithReadingState(book, status, startDate, endDate, newRating);
    }

    /** `startReading`: `today` is the device date as `yyyy-MM-dd`. */
    method StartReading(repo: BookRepository, today: string)
      requires repo.Valid()
      modifies this, repo
      ensures repo.Valid()
      ensures repo.books == UpdateWhere(old(repo.books), old(book).id,
                                        (b: Book) => b.(status := Some(IN_PROGRESS), startDate := Some(today), endDate := None))
      ensures repo.shelves == old(repo.shelves) && repo.members == old(repo.members)
      ensures book == WithReadingState(old(book), IN_PROGRESS, Some(today), None, None)
      ensures showRatingDialog == old(showRatingDialog) && rating == old(rating)
    {
      repo.UpdateBookStatus(book.id, IN_PROGRESS, Some(today), None);
      RefreshLocalBook(IN_PROGRESS, Some(today), None, None);
    }

    /** `finishReading`: keeps the start date the item carries and stores the chosen rating. */
    method FinishReading(repo: BookRepository, today: string)
      requires repo.Valid()
      modifies this, repo
      ensures repo.Valid()
      ensures repo.books == UpdateWhere(UpdateWhere(old(repo.books), old(book).id,
                                                    (b: Book) => b.(status := Some(COMPLETED),
                                                                    startDate := old(book).volumeInfo.myStartDate,
                                                                    endDate := Some(today))),
                                        old(book).id, (b: Book) => b.(rating := Some(old(rating))))
      ensures repo.shelves == old(repo.shelves) && repo.members == old(repo.members)
      ensures book == WithReadingState(old(book), COMPLETED, old(book).volumeInfo.myStartDate, Some(today), Some(old(rating)))
      ensures showRatingDialog == old(showRatingDialog) && rating == old(rating)
    {
      var startDate := book.volumeInfo.myStartDate;
      var finalRating := rating;
      repo.UpdateBookStatus(book.id, COMPLETED, startDate, Some(today));
      repo.UpdateBookRating(book.id, finalRating);
      RefreshLocalBook(COMPLETED, startDate, Some(today), Some(finalRating));
    }

    /** Removes the stored book; the screen keeps showing the item as it was. */
    method DeleteBook(repo: BookRepository)
      requires repo.Valid()
      modifies repo
      ensures repo.Valid()
      ensures repo.books == Filter(old(repo.books), WithoutGid(book.id))
      ensures repo.members == set m | m in old(repo.members) && m.bookId != book.id
      ensures repo.shelves == old(repo.shelves)
    {
      repo.DeleteBookById(book.id);
    }

    /** `saveBook`: stores the item as a new PENDING book, built field by field exactly as the
        search screen's `saveBook` does, then shows it as pending with no dates, keeping its
        rating. */
    method SaveBook(repo: BookRepository)
      requires repo.Valid()
      modifies this, repo
      ensures repo.Valid()
      ensures repo.books == Upsert(old(repo.books), SavedEntity(old(book)))
      ensures repo.shelves == old(repo.shelves) && repo.members == old(repo.members)
      ensures book == WithReadingState(old(book), PENDING, None, None, None)
      ensures showRatingDialog == old(showRatingDialog) && rating == old(rating)
    {
      var newBook := SavedEntity(book);
      repo.InsertBook(newBook);
      RefreshLocalBook(PENDING, None, None, None);
    }

    /** The action button (`handleAction` of the detail screen). */
    method HandleAction(repo: BookRepository, isLibraryMode: bool, today: string)
      requires repo.Valid()
      modifies this, repo
      ensures repo.Valid() && rating == old(rating)
      ensures repo.shelves == old(repo.shelves) && repo.members == old(repo.members)
      ensures match ChooseAction(isLibraryMode, old(book).volumeInfo.myStatus)
              case Save => book == WithReadingState(old(book), PENDING, None, None, None) &&
                           repo.books == Upsert(old(repo.books), SavedEntity(old(book))) &&
                           showRatingDialog == old(showRatingDialog)
              case Start => book == WithReadingState(old(book), IN_PROGRESS, Some(today), None, None) &&
                            repo.books == UpdateWhere(old(repo.books), old(book).id,
                                                      (b: Book) => b.(status := Some(IN_PROGRESS), startDate := Some(today), endDate := None)) &&
                            showRatingDialog == old(showRatingDialog)
              case AskRating => book == old(book) && repo.books == old(repo.books) && showRatingDialog
              case NoAction => book == old(book) && repo.books == old(repo.books) &&
                               showRatingDialog == old(showRatingDialog)
    {
      var status := book.volumeInfo.myStatus;
      if !isLibraryMode && status.None? {
        SaveBook(repo);
      } else if status == Some(PENDING) {
        StartReading(repo, today);
      } else if status == Some(IN_PROGRESS) {
        showRatingDialog := true;
      }
    }

    /** The rating sheet's save button: finishes the book and closes the sheet. */
    method OnRatingSaved(repo: BookRepository, today: string)
      requires repo.Valid()
      modifies this, repo
      ensures repo.Valid() && !showRatingDialog && rating == old(rating)
      ensures repo.books == UpdateWhere(UpdateWhere(old(repo.books), old(book).id,
                                                    (b: Book) => b.(status := Some(COMPLETED),
                                                                    startDate := old(book).volumeInfo.myStartDate,
                                                                    endDate := Some(today))),
                                        old(book).id, (b: Book) => b.(rating := Some(old(rating))))
      ensures repo.shelves == old(repo.shelves) && repo.members == old(repo.members)
      ensures book == WithReadingState(old(book), COMPLETED, old(book).volumeInfo.myStartDate, Some(today), Some(old(rating)))
    {
      FinishReading(repo, today);
      showRatingDialog := false;
    }

    /** The rating sheet's cancel button only closes the sheet. */
    method OnRatingCancelled()
      modifies this
      ensures !showRatingDialog && book == old(book) && rating == old(rating)
    {
      showRatingDialog := false;
    }
  }

  /** Every action moves the shown item exactly one step forward in the lifecycle (asking for a
      rating does so once the rating is saved), and a finished item has no action. */
  lemma ActionMovesForward(isLibraryMode: bool, item: BookItem, today: string, r: int)
    ensures var status := item.volumeInfo.myStatus;
            match ChooseAction(isLibraryMode, status)
            case Save => Stage(WithReadingState(item, PENDING, None, None, None).volumeInfo.myStatus) == Stage(status) + 1
            case Start => Stage(WithReadingState(item, IN_PROGRESS, Some(today), None, None).volumeInfo.myStatus) == Stage(status) + 1
            case AskRating =>
              Stage(WithReadingState(item, COMPLETED, item.volumeInfo.myStartDate, Some(today), Some(r)).volumeInfo.myStatus)
              == Stage(status) + 1
            case NoAction => Stage(status) == 3 || Stage(status) == -1 || (isLibraryMode && status.None?)
  {
  }

  /** Starting and then finishing keeps the start date set when reading began, records today as
      the end and the rating given, and keeps the catalog fields. */
  lemma StartThenFinish(item: BookItem, day1: string, day2: string, r: int)
    ensures var started := WithReadingState(item, IN_PROGRESS, Some(day1), None, None);
            var finished := WithReadingState(started, COMPLETED, started.volumeInfo.myStartDate, Some(day2), Some(r));
            && finished.id == item.id
            && finished.volumeInfo.myStartDate == Some(day1) && finished.volumeInfo.myEndDate == Some(day2)
            && finished.volumeInfo.myRating == Some(r) && finished.volumeInfo.myStatus == Some(COMPLETED)
            && finished.volumeInfo.title == item.volumeInfo.title
            && finished.volumeInfo.pageCount == item.volumeInfo.pageCount
            && finished.volumeInfo.authors == item.volumeInfo.authors
  {
  }

  /** Starting never changes the rating the item carries. */
  lemma StartKeepsRating(item: BookItem, today: string)
    ensures WithReadingState(item, IN_PROGRESS, Some(today), None, None).volumeInfo.myRating == item.volumeInfo.myRating
  {
  }
}
