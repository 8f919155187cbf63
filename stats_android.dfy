/** Android's statistics screen state (`ui/stats/StatsViewModel.kt`). */
module AndroidStats {
  import opened Wrappers
  import opened Seqs
  import opened Dates
  import opened Entities
  import opened StatsEngine
  import Repository

  class StatsViewModel {
    var totalBooks: int
    var booksRead: int
    var booksReading: int
    var booksPending: int
    var totalPagesRead: int
    /** `averageRating`, in tenths. */
    var averageRatingTenths: int
    var booksReadThisYear: int
    var topAuthor: Option<(string, int)>
    var longestBook: Option<Book>
    var shortestBook: Option<Book>
    var averageDaysPerBook: int
    var yearlyGoal: int

    /** The yearly goal is always positive. */
    ghost predicate Valid()
      reads this
    {
      yearlyGoal > 0
    }

    constructor ()
      ensures Valid() && yearlyGoal == 12
      ensures totalBooks == 0 && booksRead == 0 && booksReading == 0 && booksPending == 0
      ensures totalPagesRead == 0 && averageRatingTenths == 0 && booksReadThisYear == 0
      ensures topAuthor.None? && longestBook.None? && shortestBook.None? && averageDaysPerBook == 0
    {
      totalBooks, booksRead, booksReading, booksPending := 0, 0, 0, 0;
      totalPagesRead, averageRatingTenths, booksReadThisYear := 0, 0, 0;
      topAuthor, longestBook, shortestBook := None, None, None;
      averageDaysPerBook, yearlyGoal := 0, 12;
    }

    /** `loadStats`, with the current year as a parameter. */
    method LoadStats(repo: Repository.BookRepository, currentYear: int)
      requires Valid()
      modifies this
      ensures Valid() && yearlyGoal == old(yearlyGoal)
      ensures totalBooks == |repo.books|
      ensures booksRead == |Completed(repo.books)|
      ensures booksReading == Count(repo.books, IsReading)
      ensures booksPending == Count(repo.books, IsPendingOrNew)
      ensures totalPagesRead == TotalPages(Completed(repo.books))
      ensures booksReadThisYear == FinishedIn(Completed(repo.books), currentYear)
      ensures averageRatingTenths == AverageRatingTenths(Completed(repo.books))
      ensures topAuthor == TopAuthor(Completed(repo.books))
      ensures longestBook == Longest(Completed(repo.books))
      ensures shortestBook == Shortest(Completed(repo.books))
      ensures averageDaysPerBook == AverageDays(Completed(repo.books))
      ensures booksRead + booksReading + booksPending <= totalBooks
      ensures booksReadThisYear <= booksRead
    {
      var allBooks := repo.GetAllBooks();
      var completed := CalculateBasics(allBooks, currentYear);
      CalculateAdvanced(completed);
    }

    /** The records and the reading habits, both computed from the completed books. */
    method CalculateAdvanced(completed: seq<Book>)
      modifies this`topAuthor, this`longestBook, this`shortestBook, this`averageDaysPerBook
      ensures topAuthor == TopAuthor(completed)
      ensures longestBook == Longest(completed)
      ensures shortestBook == Shortest(completed)
      ensures averageDaysPerBook == AverageDays(completed)
    {
      CalculateRecords(completed);
      CalculateReadingHabits(completed);
    }

    /** The counters, pages, books of the year and average rating of `loadStats`. */
    method CalculateBasics(allBooks: seq<Book>, currentYear: int) returns (completed: seq<Book>)
      modifies this`totalBooks, this`booksRead, this`booksReading, this`booksPending,
               this`totalPagesRead, this`booksReadThisYear, this`averageRatingTenths
      ensures completed == Completed(allBooks)
      ensures totalBooks == |allBooks| && booksRead == |completed|
      ensures booksReading == Count(allBooks, IsReading)
      ensures booksPending == Count(allBooks, IsPendingOrNew)
      ensures totalPagesRead == TotalPages(completed)
      ensures booksReadThisYear == FinishedIn(completed, currentYear)
      ensures averageRatingTenths == AverageRatingTenths(completed)
      ensures booksRead + booksReading + booksPending <= totalBooks
      ensures booksReadThisYear <= booksRead
    {
      totalBooks := |allBooks|;
      completed := Filter(allBooks, IsCompleted);
      booksRead := |completed|;
      booksReading := Count(allBooks, IsReading);
      booksPending := Count(allBooks, IsPendingOrNew);
      totalPagesRead := TotalPages(completed);
      booksReadThisYear := FinishedIn(completed, currentYear);
      StatusPartition(allBooks);
      averageRatingTenths := AverageRatingTenths(completed);
    }

    /** `updateYearlyGoal`: non-positive goals are ignored. */
    method UpdateYearlyGoal(newGoal: int)
      requires Valid()
      modifies this`yearlyGoal
      ensures Valid()
      ensures yearlyGoal == if newGoal > 0 then newGoal else old(yearlyGoal)
    {
      if newGoal > 0 {
        yearlyGoal := newGoal;
      }
    }

    /** `calculateRecords`: favourite author, longest and shortest completed book. */
    method CalculateRecords(completed: seq<Book>)
      modifies this`topAuthor, this`longestBook, this`shortestBook
      ensures topAuthor == TopAuthor(completed)
      ensures longestBook == Longest(completed)
      ensures shortestBook == Shortest(completed)
    {
      if |completed| == 0 {
        topAuthor, longestBook, shortestBook := None, None, None;
        return;
      }
      topAuthor := MostFrequent(AuthorNames(completed));
      longestBook := MaxByOrNull(completed, PagesOrZero);
      shortestBook := MinByOrNull(Filter(completed, (b: Book) => PagesOrZero(b) > 0), PagesOrZero);
    }

    /** `calculateReadingHabits`: the books with both dates are summed by `SumSpans`; pairs that
        do not parse (the caught exception) or that run backwards are skipped. */
    method CalculateReadingHabits(completed: seq<Book>)
      modifies this`averageDaysPerBook
      ensures averageDaysPerBook == AverageDays(completed)
    {
      var timedBooks := Filter(completed, IsTimed);
      if |timedBooks| > 0 {
        var totalDays, count := SumSpans(timedBooks);
        averageDaysPerBook := if count > 0 then Max(1, totalDays / count) else 0;
      } else {
        averageDaysPerBook := 0;
      }
      TimedFilterIrrelevant(completed);
    }
  }
}
