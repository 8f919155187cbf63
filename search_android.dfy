/** The Android catalog search screen: the query being typed, the results of the last search,
    and saving the chosen result to the local store. */
module AndroidSearch {
  import opened Wrappers
  import opened Text
  import opened Entities
  import opened Mappers
  import opened Repository

  const ERROR_PREFIX := "Error al buscar: "

  /** Kotlin's `"${e.message}"`: an exception without a message prints as "null". */
  function MessageText(message: Option<string>): string
  {
    if message.Some? then message.value else "null"
  }

  /** The record `saveSelectedBook` builds by hand: the shared mapper's record except that both
      ISBNs are left empty. */
  function SearchEntity(item: BookItem): (r: Book)
    ensures r == ToDatabaseEntity(item).(isbn10 := None, isbn13 := None)
  {
    var info := item.volumeInfo;
    Book(
      gid := item.id,
      title := info.title,
      subtitle := info.subtitle,
      authors := JoinAuthors(info.authors),
      description := info.description,
      pageCount := info.pageCount,
      thumbnailUrl := SecureThumbnail(info.imageLinks),
      isbn10 := None,
      isbn13 := None,
      status := Some(PENDING),
      startDate := None,
      endDate := None,
      rating := None,
      notes := None)
  }

  class SearchViewModel {
    var searchQuery: string
    var searchResults: seq<BookItem>
    var isLoading: bool
    var errorMessage: Option<string>
    var selectedBook: Option<BookItem>

    constructor ()
      ensures searchQuery == [] && searchResults == [] && !isLoading
      ensures errorMessage.None? && selectedBook.None?
    {
      searchQuery, searchResults, isLoading := "", [], false;
      errorMessage, selectedBook := None, None;
    }

    method OnQueryChange(newQuery: string)
      modifies this
      ensures searchQuery == newQuery
      ensures searchResults == old(searchResults) && isLoading == old(isLoading)
      ensures errorMessage == old(errorMessage) && selectedBook == old(selectedBook)
    {
      searchQuery := newQuery;
    }

    /** `onSearchClick`. `outcome` is what `searchRemoteBooks(searchQuery)` produced: the books,
        or the message of the exception it threw. A blank query changes nothing. */
    method OnSearchClick(outcome: Result<seq<BookItem>, Option<string>>)
      modifies this
      ensures IsBlank(old(searchQuery)) ==>
                searchResults == old(searchResults) && isLoading == old(isLoading) &&
                errorMessage == old(errorMessage)
      ensures !IsBlank(old(searchQuery)) ==> !isLoading
      ensures !IsBlank(old(searchQuery)) && outcome.Success? ==>
                searchResults == outcome.value && errorMessage.None?
      ensures !IsBlank(old(searchQuery)) && outcome.Failure? ==>
                searchResults == old(searchResults) && errorMessage == Some(ERROR_PREFIX + MessageText(outcome.error))
      ensures searchQuery == old(searchQuery) && selectedBook == old(selectedBook)
    {
      if IsBlank(searchQuery) {
        return;
      }
      isLoading := true;
      errorMessage := None;
      if outcome.Success? {
        searchResults := outcome.value;
      } else {
        errorMessage := Some(ERROR_PREFIX + MessageText(outcome.error));
      }
      isLoading := false;
    }

    method OnBookClick(book: BookItem)
      modifies this
      ensures selectedBook == Some(book)
      ensures searchQuery == old(searchQuery) && searchResults == old(searchResults)
      ensures isLoading == old(isLoading) && errorMessage == old(errorMessage)
    {
      selectedBook := Some(book);
    }

    /** Stores the selected result as a new PENDING book; without a selection nothing happens. */
    method SaveSelectedBook(repo: BookRepository)
      requires repo.Valid()
      modifies repo
      ensures repo.Valid()
      ensures selectedBook.None? ==> repo.books == old(repo.books)
      ensures selectedBook.Some? ==> repo.books == Upsert(old(repo.books), SearchEntity(selectedBook.value))
      ensures repo.shelves == old(repo.shelves) && repo.members == old(repo.members)
    {
      if selectedBook.None? {
        return;
      }
      var bookToSave := selectedBook.value;
      var entity := SearchEntity(bookToSave);
      repo.InsertBook(entity);
    }
  }

  /** A saved search result reads back as the catalog listed it: a PENDING book whose
      author string splits into the catalog's names and whose thumbnail is the catalog's with
      each "http:" turned into "https:". */
  lemma SavedResultMatchesCatalog(item: BookItem)
    requires item.volumeInfo.authors.Some? && |item.volumeInfo.authors.value| > 0
    requires forall k :: 0 <= k < |item.volumeInfo.authors.value| ==> !Contains(item.volumeInfo.authors.value[k], ", ")
    ensures SearchEntity(item).authors.Some?
    ensures Split(SearchEntity(item).authors.value, ", ") == item.volumeInfo.authors.value
    ensures SearchEntity(item).thumbnailUrl.Some? ==>
              SearchEntity(item).thumbnailUrl.value ==
                Join(Split(item.volumeInfo.imageLinks.value.thumbnail.value, "http:"), "https:") &&
              !Contains(SearchEntity(item).thumbnailUrl.value, "http:")
  {
    SplitJoinNames(item.volumeInfo.authors.value);
  }
}
