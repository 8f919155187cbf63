# GoodBooks view-models in Dafny

GoodBooks is a reading-log app with an Android (Kotlin) client and an iOS (Swift) client. Both share
one Kotlin module for the data layer. This project models the platform view-models and the shared
mapper that turns a Google Books search result into a stored row. It models each platform
separately, because the two platforms really do differ. It covers:

- **Library.** The Android screen narrows the stored books by status, by case-insensitive title or
  author text, by inclusive page bounds, and by two end-date bounds compared as text. It also
  models the status chip that toggles and the clear-all button. The iOS screen filters on status
  and text only, and filters again whenever either filter is assigned. It also builds the shelf
  list with one book count per shelf, and deletes books by their position in the list on screen.
- **Statistics.** The counters, the pages read, the books finished in the current year and the
  average rating shown with one decimal. Then the favourite author after splitting on ", ", the
  longest and shortest book, and the average days per book. The Android screen also has the
  guarded yearly-goal setter. All of these are functions of the completed books, in
  `StatsEngine`. Each platform's class assigns its fields from them.
- **Shelves.** The books that can still be added to a shelf are all stored books whose `gid` is
  not on the shelf, in store order. The model also covers adding and removing memberships and the
  reloads that follow.
- **Records and reading state.** `toDatabaseEntity`, the records the two search screens and iOS
  manual entry build, and the iOS detail screen. The detail screen moves a book from PENDING to
  IN_PROGRESS to COMPLETED, and its action button chooses the step.

The repository is a class holding the books in insertion order, the shelves and a set of
(book, shelf) membership pairs. Only `getAllBooks`, `insertBook` and `searchRemoteBooks` have
source (BookRepository.kt). The shelf and status operations the view-models call are taken as an
interface, and their contracts are assumptions with these four parts:
- `insertBook` is an upsert keyed by `gid`;
- a status or rating update touches only the named columns;
- deleting a book or a shelf cascades to its memberships;
- `getBooksInShelf` keeps store order.

The repository invariant `Valid()` says that keys are unique and that every membership names a
stored book and an existing shelf.

Dates are ISO 8601 extended calendar dates, `YYYY-MM-DD` (section 4.1.2.2 of ISO 8601:2004). A
string that is not a valid Gregorian date does not parse. A parsed date becomes a day number, so
`ChronoUnit.DAYS.between` is a subtraction. Section 5.1 of RFC 3339 says that these strings sort
in date order. `Dates.IsoOrderIsChronological` proves it, and the Android date filter depends on
it. The clock, the current year, the manual-entry timestamp, the search outcome and the path of a
saved image are all parameters.

A status is the raw optional string the code compares. A missing status counts as pending. The
average rating is kept in integer tenths: with s the sum of the n positive ratings, it is
floor((20·s + n) / (2·n)). That is the mean times ten, rounded half up, which is what both
`roundToInt` and Swift's `rounded()` give for a positive value.

Modules:
- `Wrappers`, `Text`, `Seqs`: option and result types, strings, sequences;
- `Dates`;
- `Entities`: the rows and the search result shapes;
- `Mappers`;
- `Repository`;
- `StatsEngine`;
- one module per view-model: `AndroidLibrary`, `IosLibrary`, `AndroidStats`, `IosStats`,
  `ShelfView` (what both shelf screens share), `AndroidShelf`, `IosShelf`, `AndroidSearch`,
  `IosSearch`, `IosBookDetail`.

## Model

| member | source | states |
|---|---|---|
| Mappers.JoinAuthors | shared/src/commonMain/kotlin/com/roberto/goodbooks/domain/Mappers.kt:14 | The author string is absent exactly when the author list is. |
| Mappers.SecureThumbnail | shared/src/commonMain/kotlin/com/roberto/goodbooks/domain/Mappers.kt:17 | Absent exactly when the result has no thumbnail. Otherwise the URL is cut at every "http:" and the same pieces, in order, are glued with "https:". So every "http:" becomes "https:", the rest is kept, and no "http:" remains. |
| Mappers.FirstIdentifier | shared/src/commonMain/kotlin/com/roberto/goodbooks/domain/Mappers.kt:18-19 | The identifier of the first entry of the requested type. It is absent exactly when no entry has that type or the list is absent. |
| Mappers.ToDatabaseEntity | shared/src/commonMain/kotlin/com/roberto/goodbooks/domain/Mappers.kt:7-26 | `gid`, title, subtitle, description and page count are copied, and the authors are absent exactly when the list is. `isbn10` and `isbn13` are the identifier of the first `ISBN_10` and the first `ISBN_13` entry, through Mappers.FirstIdentifier. Whatever reading state the result carries, the row is PENDING with no dates, rating or notes. |
| Mappers.EntityAuthorsRoundTrip | shared/src/commonMain/kotlin/com/roberto/goodbooks/domain/Mappers.kt:14 | For a non-empty list in which no name contains ", ", splitting the stored author string on ", " gives back the catalog's list. An empty list is stored as "" and comes back as one empty name (StatsEngine.EmptyAuthorListCountsOneName). |
| Mappers.EntityThumbnailSecure | shared/src/commonMain/kotlin/com/roberto/goodbooks/domain/Mappers.kt:17 | The stored thumbnail is the catalog URL with each "http:" replaced by "https:" and the rest kept, so it holds no "http:". It is absent exactly when the result has no thumbnail. |
| Mappers.RewriteLeavesSecureUrl | shared/src/commonMain/kotlin/com/roberto/goodbooks/domain/Mappers.kt:17 | A thumbnail without "http:" is stored unchanged. |
| Text.ReplaceIsSplitJoin | shared/src/commonMain/kotlin/com/roberto/goodbooks/domain/Mappers.kt:17 | Replacing every occurrence is cutting the string at each occurrence and gluing the pieces with the replacement. |
| Text.RewriteAfterPiece | shared/src/commonMain/kotlin/com/roberto/goodbooks/domain/Mappers.kt:17 | The first "http:" after a stretch without one becomes "https:", the stretch is kept unchanged, and rewriting continues after it. |
| Entities.WithReadingState | iosApp/iosApp/BookDetailViewModel.swift:85-101 | The local copy after a status change has the new status and both new dates. It gets the new rating only when one is given, and keeps the id and every catalog field. |
| Repository.SearchRemoteBooks | shared/src/commonMain/kotlin/com/roberto/goodbooks/repository/BookRepository.kt:53-57 | The items of the response, or the empty list when the response has none or the client caught a failure. |
| Repository.Upsert | shared/src/commonMain/kotlin/com/roberto/goodbooks/repository/BookRepository.kt:29-46 | Assumed upsert: keys stay unique and the new row is present. The other rows are exactly the old rows with a different `gid`. |
| Repository.BookRepository.GetAllBooks | shared/src/commonMain/kotlin/com/roberto/goodbooks/repository/BookRepository.kt:24-26 | Returns the stored books in store order. |
| Repository.BookRepository.InsertBook | shared/src/commonMain/kotlin/com/roberto/goodbooks/repository/BookRepository.kt:29-46 | Upserts the row and keeps the invariant. Shelves and memberships are unchanged. |
| Dates.ParseIsoDate | composeApp/src/androidMain/kotlin/com/roberto/goodbooks/ui/stats/StatsViewModel.kt:116-117 | A date comes back only for a well-formed `YYYY-MM-DD` string that names a valid Gregorian date. |
| Dates.DaysBetween | composeApp/src/androidMain/kotlin/com/roberto/goodbooks/ui/stats/StatsViewModel.kt:118 | Present exactly when both strings parse, and then the day number of the end minus that of the start. |
| Dates.DayNumberOrder | composeApp/src/androidMain/kotlin/com/roberto/goodbooks/ui/stats/StatsViewModel.kt:118 | Day numbers order dates as the calendar does, and distinct dates have distinct numbers. |
| Dates.SuccIsNextDay | composeApp/src/androidMain/kotlin/com/roberto/goodbooks/ui/stats/StatsViewModel.kt:118 | The next calendar day, across month ends, 29 February and 31 December, has a day number one higher. |
| Dates.AfterCounts | composeApp/src/androidMain/kotlin/com/roberto/goodbooks/ui/stats/StatsViewModel.kt:118 | The date n calendar days later has a day number n higher. |
| Dates.DaysBetweenCountsDays | composeApp/src/androidMain/kotlin/com/roberto/goodbooks/ui/stats/StatsViewModel.kt:118 | From a date to the date n calendar days later the span is n, and in the other direction it is -n. |
| Dates.IsoOrderIsChronological | composeApp/src/androidMain/kotlin/com/roberto/goodbooks/ui/library/LibraryViewModel.kt:80-87 | For valid date strings, string order is calendar order. |
| Dates.IsoDateInjective | composeApp/src/androidMain/kotlin/com/roberto/goodbooks/ui/library/LibraryViewModel.kt:82-86 | Two valid date strings for the same day are the same string. |
| Dates.YearPrefixMeansSameYear | composeApp/src/androidMain/kotlin/com/roberto/goodbooks/ui/stats/StatsViewModel.kt:59 | For a valid date and a four-digit year, "starts with the year" means "lies in that year". |
| Dates.JanuarySpan | composeApp/src/androidMain/kotlin/com/roberto/goodbooks/ui/stats/StatsViewModel.kt:118 | From 2024-01-01 to 2024-01-11 is 10 days. |
| Dates.FebruarySpan | composeApp/src/androidMain/kotlin/com/roberto/goodbooks/ui/stats/StatsViewModel.kt:118 | From 2024-02-01 to 2024-02-06 is 5 days. |
| Dates.MonthEndSpan | composeApp/src/androidMain/kotlin/com/roberto/goodbooks/ui/stats/StatsViewModel.kt:118 | From 2024-01-31 to 2024-02-01 is 1 day. |
| Dates.YearEndSpan | composeApp/src/androidMain/kotlin/com/roberto/goodbooks/ui/stats/StatsViewModel.kt:118 | From 2023-12-31 to 2024-01-01 is 1 day. |
| Dates.LeapDaySpan | composeApp/src/androidMain/kotlin/com/roberto/goodbooks/ui/stats/StatsViewModel.kt:118 | From 2024-02-28 to 2024-03-01 is 2 days, across the leap day. |
| Dates.CommonFebruarySpan | composeApp/src/androidMain/kotlin/com/roberto/goodbooks/ui/stats/StatsViewModel.kt:118 | From 2023-02-28 to 2023-03-01 is 1 day in a common year. |
| Dates.BackwardsMarchSpan | composeApp/src/androidMain/kotlin/com/roberto/goodbooks/ui/stats/StatsViewModel.kt:118 | An end four days before the start gives -4. |
| StatsEngine.Completed | composeApp/src/androidMain/kotlin/com/roberto/goodbooks/ui/stats/StatsViewModel.kt:53 | Exactly the COMPLETED books, in store order. |
| StatsEngine.StatusPartition | composeApp/src/androidMain/kotlin/com/roberto/goodbooks/ui/stats/StatsViewModel.kt:52-57 | Each book is exactly one of: read, reading, pending-or-new, or some other status. So the three counters never exceed the total. |
| StatsEngine.TotalPages | composeApp/src/androidMain/kotlin/com/roberto/goodbooks/ui/stats/StatsViewModel.kt:58 | The pages of the books taken as a whole, a missing count adding nothing. StatsEngine.TotalPagesIgnoresUnknown states this. |
| StatsEngine.TotalPagesIgnoresUnknown | composeApp/src/androidMain/kotlin/com/roberto/goodbooks/ui/stats/StatsViewModel.kt:58 | A book without a page count adds nothing to the pages read. |
| StatsEngine.AverageRatingTenths | composeApp/src/androidMain/kotlin/com/roberto/goodbooks/ui/stats/StatsViewModel.kt:62-66 | 0 when no rating is positive. Otherwise within half a tenth of ten times the mean of the positive ratings, which is half-up rounding. |
| StatsEngine.FinishedIn | composeApp/src/androidMain/kotlin/com/roberto/goodbooks/ui/stats/StatsViewModel.kt:59 | The books whose end date starts with the year. StatsEngine.FinishedInMeansYear shows that these are the books finished in that calendar year. |
| StatsEngine.RoundHalfUp | composeApp/src/androidMain/kotlin/com/roberto/goodbooks/ui/stats/StatsViewModel.kt:65 | floor((20s+n)/(2n)) is within half a unit of 10·s/n. |
| StatsEngine.AverageRatingBounds | composeApp/src/androidMain/kotlin/com/roberto/goodbooks/ui/stats/StatsViewModel.kt:62-66 | The average lies between ten times the smallest and ten times the largest positive rating. |
| StatsEngine.AverageRatingExamples | composeApp/src/androidMain/kotlin/com/roberto/goodbooks/ui/stats/StatsViewModel.kt:62-66 | Ratings 8, 9 and 10 average to 9.0. |
| StatsEngine.AverageRoundsToNearest | iosApp/iosApp/StatsViewModel.swift:43-52 | Ratings 3, 4 and 4 show 3.7. |
| StatsEngine.AverageSkipsZeroRating | iosApp/iosApp/StatsViewModel.swift:43 | Ratings 4, 5 and 0 show 4.5, because the 0 is not averaged. |
| StatsEngine.UnratedIgnored | composeApp/src/androidMain/kotlin/com/roberto/goodbooks/ui/stats/StatsViewModel.kt:62 | Books rated 0 or not at all give an average of 0. |
| StatsEngine.FinishedInMeansYear | composeApp/src/androidMain/kotlin/com/roberto/goodbooks/ui/stats/StatsViewModel.kt:59 | For a four-digit year and valid end dates, the prefix count is the count of books ending in that calendar year. |
| StatsEngine.Occurrences | composeApp/src/androidMain/kotlin/com/roberto/goodbooks/ui/stats/StatsViewModel.kt:92-93 | A name's count is 0 exactly when it does not occur. |
| StatsEngine.Distinct | composeApp/src/androidMain/kotlin/com/roberto/goodbooks/ui/stats/StatsViewModel.kt:92 | The keys of `groupingBy` are exactly the names that occur. |
| StatsEngine.TopAuthor | composeApp/src/androidMain/kotlin/com/roberto/goodbooks/ui/stats/StatsViewModel.kt:90-96 | The favourite author of the given books and their count. StatsEngine.MostFrequentSpec states what that is. |
| StatsEngine.MostFrequentSpec | composeApp/src/androidMain/kotlin/com/roberto/goodbooks/ui/stats/StatsViewModel.kt:90-96 | None exactly when there are no names. Otherwise the favourite occurs, its count is its true count and no name has more. Every name met before its first occurrence has fewer. |
| StatsEngine.EmptyAuthorListCountsOneName | composeApp/src/androidMain/kotlin/com/roberto/goodbooks/ui/stats/StatsViewModel.kt:90-91 | A result with an empty author list is stored as "", which the statistics split into the single author name "". |
| StatsEngine.TieGoesToFirstNamed | composeApp/src/androidMain/kotlin/com/roberto/goodbooks/ui/stats/StatsViewModel.kt:96 | Between two names with equal counts, the one named first wins. |
| StatsEngine.TopAuthorExample | composeApp/src/androidMain/kotlin/com/roberto/goodbooks/ui/stats/StatsViewModel.kt:90-96 | Books by "x, y", "y" and "y, z" give favourite y with 3. |
| StatsEngine.Longest | composeApp/src/androidMain/kotlin/com/roberto/goodbooks/ui/stats/StatsViewModel.kt:99 | The first completed book with the most pages. StatsEngine.LongestSpec states this. |
| StatsEngine.Shortest | composeApp/src/androidMain/kotlin/com/roberto/goodbooks/ui/stats/StatsViewModel.kt:100 | The first of the books with the fewest positive pages. StatsEngine.ShortestSpec states this. |
| StatsEngine.TallyCounts | iosApp/iosApp/StatsViewModel.swift:73-80 | The count dictionary has exactly the names as keys, each mapped to its number of occurrences. |
| StatsEngine.TallyHasMaximum | iosApp/iosApp/StatsViewModel.swift:83 | A non-empty dictionary has an entry with the largest count. |
| StatsEngine.TallyMaximumIsTop | iosApp/iosApp/StatsViewModel.swift:83-85 | Any entry with the largest count is a most frequent name, with the count Android reports. |
| StatsEngine.LongestSpec | composeApp/src/androidMain/kotlin/com/roberto/goodbooks/ui/stats/StatsViewModel.kt:99 | None exactly when nothing is completed. Otherwise a book with the most pages (missing read as 0), and the first of them. |
| StatsEngine.ShortestSpec | composeApp/src/androidMain/kotlin/com/roberto/goodbooks/ui/stats/StatsViewModel.kt:100 | None exactly when no book has a positive page count. Otherwise a book with positive pages, no positive-paged book shorter, and the first of them: every earlier positive-paged book is strictly longer. |
| StatsEngine.AverageDays | composeApp/src/androidMain/kotlin/com/roberto/goodbooks/ui/stats/StatsViewModel.kt:103-132 | Average days per book of the qualifying spans. StatsEngine.AverageDaysMeaning states its value. |
| StatsEngine.AverageDaysMeaning | composeApp/src/androidMain/kotlin/com/roberto/goodbooks/ui/stats/StatsViewModel.kt:128-129 | 0 exactly when no book qualifies. Otherwise at least 1; above 1 it is the floor of total days over count, and 1 means that mean is below 2. |
| StatsEngine.SumSpans | composeApp/src/androidMain/kotlin/com/roberto/goodbooks/ui/stats/StatsViewModel.kt:114-126 | The loop's total and count are the sum and number of non-negative spans of books whose two dates parse. |
| StatsEngine.TimedFilterIrrelevant | composeApp/src/androidMain/kotlin/com/roberto/goodbooks/ui/stats/StatsViewModel.kt:105 | Keeping only the books with both dates first does not change the average. So Android and iOS compute the same speed. |
| StatsEngine.AverageDaysExample | composeApp/src/androidMain/kotlin/com/roberto/goodbooks/ui/stats/StatsViewModel.kt:103-132 | Spans of 10 and 5 days average to 7. A backwards span and an unreadable date are skipped. |
| AndroidStats.StatsViewModel.constructor | composeApp/src/androidMain/kotlin/com/roberto/goodbooks/ui/stats/StatsViewModel.kt:24-41 | All statistics start at zero or none, and the yearly goal at 12. |
| AndroidStats.StatsViewModel.LoadStats | composeApp/src/androidMain/kotlin/com/roberto/goodbooks/ui/stats/StatsViewModel.kt:46-74 | Every field is the statistic of the stored books or of the completed ones. The counters sum to at most the total, and this year's books are at most the read ones. The goal is kept. |
| AndroidStats.StatsViewModel.CalculateBasics | composeApp/src/androidMain/kotlin/com/roberto/goodbooks/ui/stats/StatsViewModel.kt:52-66 | The counters, pages, books of the year and average rating, with their bounds. |
| AndroidStats.StatsViewModel.CalculateAdvanced | composeApp/src/androidMain/kotlin/com/roberto/goodbooks/ui/stats/StatsViewModel.kt:68-72 | The records and the average days of the completed books. |
| AndroidStats.StatsViewModel.UpdateYearlyGoal | composeApp/src/androidMain/kotlin/com/roberto/goodbooks/ui/stats/StatsViewModel.kt:76-80 | Takes a positive goal and ignores any other, so the goal stays positive. |
| AndroidStats.StatsViewModel.CalculateRecords | composeApp/src/androidMain/kotlin/com/roberto/goodbooks/ui/stats/StatsViewModel.kt:81-101 | Favourite author, longest and shortest book. All three are none when nothing is completed. |
| AndroidStats.StatsViewModel.CalculateReadingHabits | composeApp/src/androidMain/kotlin/com/roberto/goodbooks/ui/stats/StatsViewModel.kt:103-133 | The average days per book of the completed books. |
| IosStats.StatsViewModel.constructor | iosApp/iosApp/StatsViewModel.swift:9-25 | Goal 12, then the loaded statistics of the completed books: read count, pages, average rating, favourite author and count, reading speed and year progress. The longest book is the first longest completed one, or "-" with 0 pages when nothing is completed. |
| IosStats.StatsViewModel.LoadStats | iosApp/iosApp/StatsViewModel.swift:27-68 | The read count, pages, average rating, favourite author, longest book, reading speed and year progress of the completed books. The goal is never touched. |
| IosStats.StatsViewModel.CalculateLongest | iosApp/iosApp/StatsViewModel.swift:58-61 | Title and pages of the first longest book. Both are kept as they were when nothing is completed. |
| IosStats.StatsViewModel.CalculateTopAuthor | iosApp/iosApp/StatsViewModel.swift:70-90 | "-" and 0 when there are no names. Otherwise a name that occurs, with its true count, which is the largest count and the one Android finds. |
| IosStats.StatsViewModel.CountAuthors | iosApp/iosApp/StatsViewModel.swift:73-80 | The dictionary the nested loops build counts every author of every book. |
| IosStats.StatsViewModel.CountNames | iosApp/iosApp/StatsViewModel.swift:77-79 | The inner loop adds one to each of the book's names. |
| IosStats.StatsViewModel.CalculateReadingSpeed | iosApp/iosApp/StatsViewModel.swift:92-118 | The same average days per book as Android's. |
| IosStats.StatsViewModel.CalculateYearlyProgress | iosApp/iosApp/StatsViewModel.swift:120-126 | The completed books whose end date starts with the year. |
| AndroidLibrary.ToIntOrNull | composeApp/src/androidMain/kotlin/com/roberto/goodbooks/ui/library/LibraryViewModel.kt:74-75 | A parsed bound is a 32-bit value from non-empty text. |
| AndroidLibrary.ToIntOrNullReadsNumber | composeApp/src/androidMain/kotlin/com/roberto/goodbooks/ui/library/LibraryViewModel.kt:74-75 | A typed number is read as that number when it fits an `Int`. The printout of a number outside the `Int` range does not parse, so that bound is no bound. |
| AndroidLibrary.Visible | composeApp/src/androidMain/kotlin/com/roberto/goodbooks/ui/library/LibraryViewModel.kt:57-90 | A book is shown exactly when it is stored and passes every filter that is set. |
| AndroidLibrary.ByStatusAndText | composeApp/src/androidMain/kotlin/com/roberto/goodbooks/ui/library/LibraryViewModel.kt:60-71 | The status and text steps leave the books passing both. |
| AndroidLibrary.ByPages | composeApp/src/androidMain/kotlin/com/roberto/goodbooks/ui/library/LibraryViewModel.kt:73-77 | The page steps also apply the bounds that parse. |
| AndroidLibrary.ByDates | composeApp/src/androidMain/kotlin/com/roberto/goodbooks/ui/library/LibraryViewModel.kt:79-87 | The date steps end at the visible list. |
| AndroidLibrary.LibraryViewModel.constructor | composeApp/src/androidMain/kotlin/com/roberto/goodbooks/ui/library/LibraryViewModel.kt:22-48 | No books, no filters, nothing selected. |
| AndroidLibrary.LibraryViewModel.ApplyFilters | composeApp/src/androidMain/kotlin/com/roberto/goodbooks/ui/library/LibraryViewModel.kt:57-90 | The shown list is the stored list narrowed by the current filters. Nothing else changes. |
| AndroidLibrary.LibraryViewModel.LoadLibrary | composeApp/src/androidMain/kotlin/com/roberto/goodbooks/ui/library/LibraryViewModel.kt:50-55 | Takes the stored books and filters them again. |
| AndroidLibrary.LibraryViewModel.OnStatusFilterChanged | composeApp/src/androidMain/kotlin/com/roberto/goodbooks/ui/library/LibraryViewModel.kt:93-96 | Toggles the status filter, leaves the other filters as they were, and filters again. |
| AndroidLibrary.LibraryViewModel.OnSearchQueryChanged | composeApp/src/androidMain/kotlin/com/roberto/goodbooks/ui/library/LibraryViewModel.kt:98-101 | Sets only the query and filters again. |
| AndroidLibrary.LibraryViewModel.OnAdvancedFiltersChanged | composeApp/src/androidMain/kotlin/com/roberto/goodbooks/ui/library/LibraryViewModel.kt:103-109 | Sets the four bound texts, keeps status and query, and filters again. |
| AndroidLibrary.LibraryViewModel.ClearAllFilters | composeApp/src/androidMain/kotlin/com/roberto/goodbooks/ui/library/LibraryViewModel.kt:111-119 | No filter remains and every stored book is shown. |
| AndroidLibrary.LibraryViewModel.OnBookClick | composeApp/src/androidMain/kotlin/com/roberto/goodbooks/ui/library/LibraryViewModel.kt:121-123 | Selects the tapped book. |
| AndroidLibrary.LibraryViewModel.UpdateSelectedBookStatus | composeApp/src/androidMain/kotlin/com/roberto/goodbooks/ui/library/LibraryViewModel.kt:154-163 | Updates the selected book's reading state, and changes nothing when no book is selected. |
| AndroidLibrary.LibraryViewModel.StartReading | composeApp/src/androidMain/kotlin/com/roberto/goodbooks/ui/library/LibraryViewModel.kt:126-133 | The stored row becomes IN_PROGRESS, started today, with no end. The selection follows and keeps its rating. |
| AndroidLibrary.LibraryViewModel.FinishReading | composeApp/src/androidMain/kotlin/com/roberto/goodbooks/ui/library/LibraryViewModel.kt:136-145 | The row becomes COMPLETED and ends today, keeping the selected book's start date and taking the given rating. The selection follows. |
| AndroidLibrary.LibraryViewModel.DeleteBook | composeApp/src/androidMain/kotlin/com/roberto/goodbooks/ui/library/LibraryViewModel.kt:147-152 | The row and its memberships go; the list is reloaded. |
| AndroidLibrary.VisibleIsSubsequence | composeApp/src/androidMain/kotlin/com/roberto/goodbooks/ui/library/LibraryViewModel.kt:57-89 | The shown list keeps the store's order. |
| AndroidLibrary.ClearedShowsAll | composeApp/src/androidMain/kotlin/com/roberto/goodbooks/ui/library/LibraryViewModel.kt:111-119 | With no filter the shown list equals the stored list. |
| AndroidLibrary.VisibleIdempotent | composeApp/src/androidMain/kotlin/com/roberto/goodbooks/ui/library/LibraryViewModel.kt:57-89 | Filtering the shown list again changes nothing. |
| AndroidLibrary.UnparsableBoundsIgnored | composeApp/src/androidMain/kotlin/com/roberto/goodbooks/ui/library/LibraryViewModel.kt:74-77 | A page bound that does not parse as an `Int` is no bound. |
| AndroidLibrary.VisibleMeetsFilters | composeApp/src/androidMain/kotlin/com/roberto/goodbooks/ui/library/LibraryViewModel.kt:61-87 | A shown book has the chosen status and lies within the page bounds that parse. Its end date is within each date bound that is set. A non-blank query occurs in its title or authors. |
| AndroidLibrary.VisibleIsComplete | composeApp/src/androidMain/kotlin/com/roberto/goodbooks/ui/library/LibraryViewModel.kt:57-89 | Every stored book passing the filters is shown. |
| AndroidLibrary.DateBoundsAreChronological | composeApp/src/androidMain/kotlin/com/roberto/goodbooks/ui/library/LibraryViewModel.kt:80-87 | For ISO dates the text bounds are the calendar bounds. |
| AndroidLibrary.ToggleTwice | composeApp/src/androidMain/kotlin/com/roberto/goodbooks/ui/library/LibraryViewModel.kt:93-96 | Choosing the set status clears it and choosing another sets it. Choosing the same one twice restores the start exactly when nothing else was set. |
| IosLibrary.Visible | iosApp/iosApp/LibraryViewModel.swift:60-79 | A book is shown exactly when it has the chosen status and, for a non-empty query, its title or listed authors contain the query. |
| IosLibrary.LibraryViewModel.constructor | iosApp/iosApp/LibraryViewModel.swift:34-37 | Loads everything with no filter, so every stored book is shown. |
| IosLibrary.LibraryViewModel.SetSearchQuery | iosApp/iosApp/LibraryViewModel.swift:27-29 | Assigning the query filters again. |
| IosLibrary.LibraryViewModel.SetStatusFilter | iosApp/iosApp/LibraryViewModel.swift:30-32 | Assigning the status filter filters again. |
| IosLibrary.LibraryViewModel.LoadData | iosApp/iosApp/LibraryViewModel.swift:39-58 | One entry per shelf in store order, each with its book count. The list is filtered again, and loading is over on return. |
| IosLibrary.LibraryViewModel.ApplyFilters | iosApp/iosApp/LibraryViewModel.swift:60-79 | The shown list is the stored list narrowed by status and query. |
| IosLibrary.LibraryViewModel.DeleteBook | iosApp/iosApp/LibraryViewModel.swift:81-88 | Deletes the `gid`s at the offsets of the filtered list on screen, with their memberships, then reloads. |
| IosLibrary.LibraryViewModel.CreateShelf | iosApp/iosApp/LibraryViewModel.swift:91-94 | Appends a shelf under a fresh id and reloads. |
| IosLibrary.LibraryViewModel.DeleteShelf | iosApp/iosApp/LibraryViewModel.swift:96-99 | Removes the shelf and its memberships, keeps the books, and reloads. |
| IosLibrary.DeleteAt | iosApp/iosApp/LibraryViewModel.swift:83-86 | The loop deletes exactly the books at the given offsets of the list it was given. |
| IosLibrary.VisibleIsSubsequence | iosApp/iosApp/LibraryViewModel.swift:60-78 | The shown list keeps the store's order. |
| IosLibrary.NoFilterShowsAll | iosApp/iosApp/LibraryViewModel.swift:61-75 | With no filter every stored book is shown. |
| IosLibrary.VisibleMeetsFilters | iosApp/iosApp/LibraryViewModel.swift:64-75 | A shown book has the chosen status and its title or authors contain a non-empty query. A book without authors matches on its title. |
| IosLibrary.WhitespaceQueryDiffersFromAndroid | iosApp/iosApp/LibraryViewModel.swift:69 | A query of spaces is applied here but ignored on Android. |
| ShelfView.Available | composeApp/src/androidMain/kotlin/com/roberto/goodbooks/ui/library/ShelfDetailViewModel.kt:48-55 | The candidates are exactly the stored books whose `gid` is not on the shelf list. |
| ShelfView.AvailableIsSubsequence | iosApp/iosApp/ShelfDetailViewModel.swift:30-37 | The candidates keep the store's order. |
| ShelfView.AvailableSplitsStore | composeApp/src/androidMain/kotlin/com/roberto/goodbooks/ui/library/ShelfDetailViewModel.kt:52-53 | No candidate shares a `gid` with a shelved book, and every other stored book is a candidate. |
| ShelfView.AvailableAreNonMembers | composeApp/src/androidMain/kotlin/com/roberto/goodbooks/ui/library/ShelfDetailViewModel.kt:48-55 | With the shelf list fresh from the store, the candidates are the non-members. |
| ShelfView.MemberNotAvailable | iosApp/iosApp/ShelfDetailViewModel.swift:39-43 | A shelved book is never offered. |
| AndroidShelf.ShelfDetailViewModel.constructor | composeApp/src/androidMain/kotlin/com/roberto/goodbooks/ui/library/ShelfDetailViewModel.kt:21-30 | No shelf and empty lists. |
| AndroidShelf.ShelfDetailViewModel.LoadShelf | composeApp/src/androidMain/kotlin/com/roberto/goodbooks/ui/library/ShelfDetailViewModel.kt:32-41 | The first shelf with the id, or none when no shelf has it, and that id's books. |
| AndroidShelf.ShelfDetailViewModel.RefreshBooks | composeApp/src/androidMain/kotlin/com/roberto/goodbooks/ui/library/ShelfDetailViewModel.kt:43-45 | The shelf's books from the store. |
| AndroidShelf.ShelfDetailViewModel.LoadAvailableBooks | composeApp/src/androidMain/kotlin/com/roberto/goodbooks/ui/library/ShelfDetailViewModel.kt:48-55 | The candidates against the shelf list held now. |
| AndroidShelf.ShelfDetailViewModel.AddBookToShelf | composeApp/src/androidMain/kotlin/com/roberto/goodbooks/ui/library/ShelfDetailViewModel.kt:57-64 | Does nothing without a shelf. Otherwise adds the membership, reloads the shelf list and then the candidates. |
| AndroidShelf.ShelfDetailViewModel.RemoveBookFromShelf | composeApp/src/androidMain/kotlin/com/roberto/goodbooks/ui/library/ShelfDetailViewModel.kt:66-72 | Does nothing without a shelf. Otherwise removes the membership and reloads only the shelf list; the candidates are kept. |
| AndroidShelf.AddedBookMovesOver | composeApp/src/androidMain/kotlin/com/roberto/goodbooks/ui/library/ShelfDetailViewModel.kt:57-64 | After an add, the book is on the shelf and not a candidate. |
| AndroidShelf.RemovedBookInNeither | composeApp/src/androidMain/kotlin/com/roberto/goodbooks/ui/library/ShelfDetailViewModel.kt:66-72 | If the candidates were computed while the book was still on the shelf, then after a removal the book is in neither list, because a removal does not reload the candidates. |
| IosShelf.ShelfDetailViewModel.constructor | iosApp/iosApp/ShelfDetailViewModel.swift:15-20 | Binds the shelf id and name for good and loads the shelf's books. |
| IosShelf.ShelfDetailViewModel.LoadBooks | iosApp/iosApp/ShelfDetailViewModel.swift:23-27 | The shelf's books; loading is over on return. |
| IosShelf.ShelfDetailViewModel.LoadAvailableBooks | iosApp/iosApp/ShelfDetailViewModel.swift:30-37 | The candidates against the shelf list held now. |
| IosShelf.ShelfDetailViewModel.AddBook | iosApp/iosApp/ShelfDetailViewModel.swift:39-43 | Adds the membership and reloads both lists. |
| IosShelf.ShelfDetailViewModel.RemoveBook | iosApp/iosApp/ShelfDetailViewModel.swift:45-51 | Removes the memberships of the books at the offsets and reloads only the shelf list. |
| AndroidSearch.SavedResultMatchesCatalog | composeApp/src/androidMain/kotlin/com/roberto/goodbooks/ui/search/SearchViewModel.kt:85-88 | The stored author string splits back into the catalog's names. The thumbnail is the catalog URL with each "http:" turned into "https:", and holds no "http:". |
| AndroidSearch.SearchEntity | composeApp/src/androidMain/kotlin/com/roberto/goodbooks/ui/search/SearchViewModel.kt:81-96 | The hand-built row is the shared mapper's row with both ISBNs empty. |
| AndroidSearch.SearchViewModel.constructor | composeApp/src/androidMain/kotlin/com/roberto/goodbooks/ui/search/SearchViewModel.kt:23-36 | Empty query and results, not loading, no error, nothing selected. |
| AndroidSearch.SearchViewModel.OnQueryChange | composeApp/src/androidMain/kotlin/com/roberto/goodbooks/ui/search/SearchViewModel.kt:41-43 | Changes only the query. |
| AndroidSearch.SearchViewModel.OnSearchClick | composeApp/src/androidMain/kotlin/com/roberto/goodbooks/ui/search/SearchViewModel.kt:46-65 | A blank query changes nothing. On success the results are replaced with no error; on failure the results are kept and the message is set. Loading ends either way. |
| AndroidSearch.SearchViewModel.OnBookClick | composeApp/src/androidMain/kotlin/com/roberto/goodbooks/ui/search/SearchViewModel.kt:70-72 | Selects the book and changes nothing else. |
| AndroidSearch.SearchViewModel.SaveSelectedBook | composeApp/src/androidMain/kotlin/com/roberto/goodbooks/ui/search/SearchViewModel.kt:75-103 | Stores nothing without a selection. Otherwise upserts the hand-built PENDING row. |
| IosSearch.SearchViewModel.constructor | iosApp/iosApp/SearchViewModel.swift:9-16 | Empty query and results, not loading, no error. |
| IosSearch.SearchViewModel.Search | iosApp/iosApp/SearchViewModel.swift:18-33 | An empty query changes nothing, but a query of spaces is searched. Success replaces the results and clears the error; failure keeps the results and sets "Error: " and the description. Loading ends either way. |
| IosSearch.SearchViewModel.SaveBook | iosApp/iosApp/SearchViewModel.swift:35-70 | Upserts the row built field by field. |
| IosSearch.SearchViewModel.SaveManualBook | iosApp/iosApp/SearchViewModel.swift:83-115 | Upserts the manual row. |
| IosSearch.Thumbnail | iosApp/iosApp/SearchViewModel.swift:42-45 | Only a thumbnail starting with "http:" is rewritten. Then every "http:" becomes "https:", the rest is kept and no "http:" remains. Any other thumbnail is stored as it came. |
| IosSearch.SavedEntity | iosApp/iosApp/SearchViewModel.swift:35-70 | The row is the shared mapper's row except for the thumbnail, which follows the iOS rule. So the ISBNs are the first `ISBN_10` and `ISBN_13` identifiers, as in the mapper. |
| IosSearch.ManualId | iosApp/iosApp/SearchViewModel.swift:85 | "manual_" followed by the printed timestamp. |
| IosSearch.ManualEntity | iosApp/iosApp/SearchViewModel.swift:95-110 | A non-empty author or ISBN is stored as typed and an empty one as absent. The ISBN goes to `isbn13`. A non-empty description is stored as typed and an empty one as the default text. The thumbnail is the saved image path and the page count is never absent. The book is PENDING and unread. |
| IosSearch.SavedEntityVsMapper | iosApp/iosApp/SearchViewModel.swift:35-70 | The iOS row equals the shared mapper's exactly when the thumbnail is absent, starts with "http:" or has no "http:". |
| IosSearch.ManualIdsDistinct | iosApp/iosApp/SearchViewModel.swift:85 | Different timestamps give different manual ids. |
| IosSearch.ManualPages | iosApp/iosApp/SearchViewModel.swift:103 | The page count is never absent: a 64-bit number is kept, and other text gives 0. |
| IosBookDetail.BookDetailViewModel.constructor | iosApp/iosApp/BookDetailViewModel.swift:10-16 | The given item, no rating sheet, rating 5. |
| IosBookDetail.ChooseAction | iosApp/iosApp/BookDetailScreen.swift:113-123 | Save exactly for an unsaved search result, Start exactly for PENDING, rating exactly for IN_PROGRESS, and nothing otherwise. |
| IosBookDetail.BookDetailViewModel.RefreshLocalBook | iosApp/iosApp/BookDetailViewModel.swift:85-101 | The item gets the new reading state, and the dialog state is kept. |
| IosBookDetail.BookDetailViewModel.StartReading | iosApp/iosApp/BookDetailViewModel.swift:20-28 | The row becomes IN_PROGRESS, started today, with no end. The item follows and keeps its rating. |
| IosBookDetail.BookDetailViewModel.FinishReading | iosApp/iosApp/BookDetailViewModel.swift:30-42 | The row becomes COMPLETED and ends today, keeping the item's start date and taking the slider rating. The item follows. |
| IosBookDetail.BookDetailViewModel.DeleteBook | iosApp/iosApp/BookDetailViewModel.swift:44-46 | Removes the row and its memberships and leaves the shown item alone. |
| IosBookDetail.BookDetailViewModel.SaveBook | iosApp/iosApp/BookDetailViewModel.swift:49-82 | Upserts the same row as the search screen's `saveBook`, and shows the item as PENDING with no dates. |
| IosBookDetail.BookDetailViewModel.HandleAction | iosApp/iosApp/BookDetailScreen.swift:113-123 | An unsaved search result is upserted and shown as PENDING. A pending book's row and item become IN_PROGRESS, started today. A book being read opens the rating sheet. Anything else does nothing. Shelves and memberships are always kept. |
| IosBookDetail.BookDetailViewModel.OnRatingSaved | iosApp/iosApp/BookDetailScreen.swift:102-105 | The row becomes COMPLETED, ending today, with the item's start date and the chosen rating. The item follows, the sheet closes, and shelves and memberships are kept. |
| IosBookDetail.BookDetailViewModel.OnRatingCancelled | iosApp/iosApp/BookDetailScreen.swift:106-108 | Only closes the sheet. |
| IosBookDetail.ActionMovesForward | iosApp/iosApp/BookDetailScreen.swift:113-123 | Each action moves the item exactly one step along not stored, PENDING, IN_PROGRESS, COMPLETED. No action is offered for a finished book. |
| IosBookDetail.StartThenFinish | iosApp/iosApp/BookDetailViewModel.swift:20-42 | Starting and then finishing records both days and the rating, and keeps the catalog fields. |
| IosBookDetail.StartKeepsRating | iosApp/iosApp/BookDetailViewModel.swift:96 | Starting never changes the item's rating. |

## Left out

- Concurrency: `viewModelScope.launch`, Swift `Task`, `@MainActor` and suspension are not
  modelled. Each operation runs to completion at once, so the race in which the last search
  response wins is out.
- Floating point: the rating is kept in integer tenths and the detail screen's slider as a whole
  number. The challenge progress bars and the colour conversion are not modelled.
- IosBookDetail.BookDetailViewModel.FinishReading: takes the rating as an integer, so the
  truncation of the slider's `Double` toward zero by `Int64(rating)` is not modelled.
- Case folding is ASCII only. Locale-aware folding, Unicode whitespace beyond ASCII and U+001C to
  U+001F, and non-ASCII digits are out.
- Strings are compared by code point, as sequences of characters. Swift's `==`, `hasPrefix`,
  `starts(with:)` and `[String: Int]` keys compare by canonical equivalence, and Kotlin's
  `compareTo` on the date bounds orders by UTF-16 code unit; neither is modelled, so two
  canonically equal but differently encoded strings count as different.
- Date parsing is strict `YYYY-MM-DD` with a four-digit year. The leniency of `DateFormatter`,
  time zones and daylight saving in `Calendar.dateComponents`, and years outside 0000 to 9999 are
  out.
- Integer widths: page counts, ratings and sums are unbounded. The 32-bit `Int` sums on Android,
  Swift's `intValue` and `Int(...)` conversions, and the `toInt()` of the average days are not
  modelled as wrapping. Only the 32-bit `toIntOrNull` and 64-bit `Int64(pages)` parse ranges are
  modelled.
- Image handling: `saveImageToDocuments` and the picker are out, and `imagePath` is their result,
  given as a parameter.
- The screens, dialogs and navigation are out, apart from the iOS detail screen's action button
  and rating sheet.
- The network client, JSON decoding and SQL are out. The repository's shelf and status
  operations, the order of `getBooksInShelf`, the upsert behaviour of `insertBook` and the
  cascades are assumed contracts of `Repository.BookRepository`.
- `toBookItem` is not part of this model. `AndroidLibrary.LibraryViewModel.OnBookClick` takes the
  converted item.
- The failure branch of `onSearchClick` is modelled, but the client catches every failure itself
  and returns no items, so that branch is not reached through `Repository.SearchRemoteBooks`.
- Swift's `IndexSet` is a sequence of distinct offsets taken in increasing order.
- IosStats.StatsViewModel.CalculateTopAuthor: the dictionary's iteration order, which breaks ties
  between equal counts, is unspecified. So the contract allows any name with the largest count
  and fixes only its count.
- Proof structure with no counterpart in the source:
  - `AndroidStats.StatsViewModel.CalculateBasics` and `CalculateAdvanced` split `loadStats`;
  - `StatsEngine.SumSpans` is the summing loop the two platforms share;
  - `IosStats.StatsViewModel.CountAuthors` and `CountNames` are the loops of `calculateTopAuthor`;
  - `AndroidLibrary.ByStatusAndText`, `ByPages` and `ByDates` are the steps of `applyFilters`;
  - `Seqs.FilterStep` is one conditional filter;
  - `IosLibrary.DeleteAt` is the loop of `deleteBook(at:)`.
