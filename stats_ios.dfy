/** iOS's statistics screen state (`StatsViewModel.swift`). */
module IosStats {
  import opened Wrappers
  import opened Seqs
  import opened Text
  import opened Entities
  import opened StatsEngine
  import Repository
  import Mappers

  class StatsViewModel {
    var booksRead: int
    var totalPages: int
    /** `averageRating`, in tenths. */
    var averageRatingTenths: int
    var topAuthor: string
    var topAuthorCount: int
    var longestBookTitle: string
    var longestBookPages: int
    var readingSpeed: int
    var yearlyGoal: int
    var currentYearProgress: int

    /** `init(repository:)`: the published defaults, then `loadStats()`. */
    constructor (repo: Repository.BookRepository, currentYear: int)
      ensures yearlyGoal == 12
      ensures booksRead == |Completed(repo.books)|
      ensures totalPages == TotalPages(Completed(repo.books))
      ensures averageRatingTenths == AverageRatingTenths(Completed(repo.books))
      ensures readingSpeed == AverageDays(Completed(repo.books))
      ensures currentYearProgress == FinishedIn(Completed(repo.books), currentYear)
      ensures var names := AuthorNames(Completed(repo.books));
              if names == [] then topAuthor == "-" && topAuthorCount == 0
              else topAuthor in names && topAuthorCount == Occurrences(names, topAuthor)
                   && topAuthorCount == MostFrequent(names).value.1
      ensures match Longest(Completed(repo.books))
              case None => longestBookTitle == "-" && longestBookPages == 0
              case Some(b) => longestBookTitle == b.title && longestBookPages == PagesOrZero(b)
    {
      booksRead, totalPages, averageRatingTenths := 0, 0, 0;
      topAuthor, topAuthorCount := "-", 0;
      longestBookTitle, longestBookPages := "-", 0;
      readingSpeed, yearlyGoal, currentYearProgress := 0, 12, 0;
      new;
      LoadStats(repo, currentYear);
    }

    /** `loadStats`. The longest book is only overwritten when there is a completed book. */
    method LoadStats(repo: Repository.BookRepository, currentYear: int)
      modifies this
      ensures yearlyGoal == old(yearlyGoal)
      ensures booksRead == |Completed(repo.books)|
      ensures totalPages == TotalPages(Completed(repo.books))
      ensures averageRatingTenths == AverageRatingTenths(Completed(repo.books))
      ensures var names := AuthorNames(Completed(repo.books));
              if names == [] then topAuthor == "-" && topAuthorCount == 0
              else topAuthor in names && topAuthorCount == Occurrences(names, topAuthor)
                   && topAuthorCount == MostFrequent(names).value.1
      ensures match Longest(Completed(repo.books))
              case None => longestBookTitle == old(longestBookTitle) && longestBookPages == old(longestBookPages)
              case Some(b) => longestBookTitle == b.title && longestBookPages == PagesOrZero(b)
      ensures readingSpeed == AverageDays(Completed(repo.books))
      ensures currentYearProgress == FinishedIn(Completed(repo.books), currentYear)
    {
      var allBooks := repo.GetAllBooks();
      var completedBooks := Filter(allBooks, IsCompleted);
      booksRead := |completedBooks|;
      totalPages := TotalPages(completedBooks);
      averageRatingTenths := AverageRatingTenths(completedBooks);
      CalculateTopAuthor(completedBooks);
      CalculateLongest(completedBooks);
      CalculateReadingSpeed(completedBooks);
      CalculateYearlyProgress(completedBooks, currentYear);
    }

    /** `if let longest = completedBooks.max(by:)`: title and pages of the first longest book. */
    method CalculateLongest(books: seq<Book>)
      modifies this`longestBookTitle, this`longestBookPages
      ensures match Longest(books)
              case None => longestBookTitle == old(longestBookTitle) && longestBookPages == old(longestBookPages)
              case Some(b) => longestBookTitle == b.title && longestBookPages == PagesOrZero(b)
    {
      var longest := MaxByOrNull(books, PagesOrZero);
      if longest.Some? {
        longestBookTitle := longest.value.title;
        longestBookPages := PagesOrZero(longest.value);
      }
    }

    /** `calculateTopAuthor`: tally every author of every book, then take a key with the
        largest count. The dictionary's iteration order, which decides between equal counts,
        is unspecified, so any such key is allowed; the count is the one Android finds. */
    method CalculateTopAuthor(books: seq<Book>)
      modifies this`topAuthor, this`topAuthorCount
      ensures var names := AuthorNames(books);
              if names == [] then topAuthor == "-" && topAuthorCount == 0
              else && topAuthor in names
                   && topAuthorCount == Occurrences(names, topAuthor)
                   && (forall x :: x in names ==> Occurrences(names, x) <= topAuthorCount)
                   && topAuthorCount == MostFrequent(names).value.1
    {
      var counts := CountAuthors(books);
      TallyEmpty(AuthorNames(books));
      if counts == map[] {
        topAuthor, topAuthorCount := "-", 0;
      } else {
        TallyHasMaximum(AuthorNames(books));
        var best :| best in counts && forall y :: y in counts ==> counts[y] <= counts[best];
        topAuthor, topAuthorCount := best, counts[best];
        TallyMaximumIsTop(AuthorNames(books), best);
      }
    }

    /** The counting loops of `calculateTopAuthor`: `counts[author, default: 0] += 1` for every
        author of every book with authors. */
    static method CountAuthors(books: seq<Book>) returns (counts: map<string, int>)
      ensures counts == Tally(AuthorNames(books))
    {
      counts := map[];
      var i := 0;
      while i < |books|
        invariant 0 <= i <= |books|
        invariant counts == Tally(AuthorNames(books[..i]))
      {
        var book := books[i];
        AuthorNamesStep(books, i);
        if book.authors.Some? {
          var list := Split(book.authors.value, Mappers.AUTHOR_SEPARATOR);
          assert AuthorsOf(book) == list;
          counts := CountNames(counts, AuthorNames(books[..i]), list);
          assert counts == Tally(AuthorNames(books[..i + 1]));
        } else {
          assert AuthorNames(books[..i]) + [] == AuthorNames(books[..i]);
        }
        i := i + 1;
      }
      assert books[..i] == books;
    }

    /** The inner loop: one more count for each name of `list`, on top of the tally of `seen`. */
    static method CountNames(counts0: map<string, int>, ghost seen: seq<string>, list: seq<string>)
      returns (counts: map<string, int>)
      requires counts0 == Tally(seen)
      ensures counts == Tally(seen + list)
    {
      counts := counts0;
      var j := 0;
      assert seen + list[..0] == seen;
      while j < |list|
        invariant 0 <= j <= |list|
        invariant counts == Tally(seen + list[..j])
      {
        var author := list[j];
        TallyStep(seen + list[..j], author);
        assert seen + list[..j + 1] == (seen + list[..j]) + [author];
        counts := counts[author := (if author in counts then counts[author] else 0) + 1];
        j := j + 1;
      }
      assert list[..j] == list;
    }

    /** `calculateReadingSpeed`: the same loop as Android's, over all completed books. */
    method CalculateReadingSpeed(books: seq<Book>)
      modifies this`readingSpeed
      ensures readingSpeed == AverageDays(books)
    {
      var totalDays, count := SumSpans(books);
      if count > 0 {
        readingSpeed := Max(1, totalDays / count);
      } else {
        readingSpeed := 0;
      }
    }

    /** `calculateYearlyProgress`: completed books whose end date starts with the year. */
    method CalculateYearlyProgress(books: seq<Book>, currentYear: int)
      modifies this`currentYearProgress
      ensures currentYearProgress == FinishedIn(books, currentYear)
    {
      var yearString := IntToString(currentYear);
      var startsWithYear := (b: Book) => b.endDate.Some? && StartsWith(b.endDate.value, yearString);
      currentYearProgress := |Filter(books, startsWithYear)|;
      FilterExt(books, startsWithYear, (b: Book) => EndsInYear(b, currentYear));
    }
  }
}
