/** The iOS catalog search screen, saving a search result, and registering a book by hand. */
module IosSearch {
  import opened Wrappers
  import opened Text
  import opened Entities
  import opened Mappers
  import opened Repository

  const ERROR_PREFIX := "Error: "
  const MANUAL_PREFIX := "manual_"
  const DEFAULT_DESCRIPTION := "Registrado manualmente"
  const INT64_MIN := -0x8000_0000_0000_0000
  const INT64_MAX := 0x7FFF_FFFF_FFFF_FFFF

  /** The thumbnail `saveBook` stores: only a URL that starts with "http:" is rewritten, and
      then every "http:" in it becomes "https:" with the rest kept; any other is stored as it
      came. */
  function Thumbnail(links: Option<ImageLinks>): (r: Option<string>)
    ensures links.None? || links.value.thumbnail.None? ==> r.None?
    ensures links.Some? && links.value.thumbnail.Some? && StartsWith(links.value.thumbnail.value, "http:") ==>
              r.Some? && !Contains(r.value, "http:") && StartsWith(r.value, "https:") &&
              r.value == Join(Split(links.value.thumbnail.value, "http:"), "https:")
    ensures links.Some? && links.value.thumbnail.Some? && !StartsWith(links.value.thumbnail.value, "http:") ==>
              r == links.value.thumbnail
  {
    var thumb := if links.Some? then links.value.thumbnail else None;
    if thumb.Some? && StartsWith(thumb.value, "http:") then
      var u := thumb.value;
      RewriteRemovesHttp(u);
      ReplaceIsSplitJoin(u, "http:", "https:");
      assert u == "http:" + u[5..];
      assert u[..5] == "http:";
      Some(ReplaceAll(u, "http:", "https:"))
    else thumb
  }

  /** The record `saveBook` stores for a search result. Its `toKotlinLong` widening of the page
      count changes no value, since every 32-bit number is a 64-bit one. Apart from the
      thumbnail it is the shared mapper's record. */
  function SavedEntity(item: BookItem): (r: Book)
    ensures r.(thumbnailUrl := None) == ToDatabaseEntity(item).(thumbnailUrl := None)
    ensures r.thumbnailUrl == Thumbnail(item.volumeInfo.imageLinks)
  {
    var vol := item.volumeInfo;
    Book(
      gid := item.id,
      title := vol.title,
      subtitle := vol.subtitle,
      authors := JoinAuthors(vol.authors),
      description := vol.description,
      pageCount := vol.pageCount,
      thumbnailUrl := Thumbnail(vol.imageLinks),
      isbn10 := FirstIdentifier(vol.industryIdentifiers, "ISBN_10"),
      isbn13 := FirstIdentifier(vol.industryIdentifiers, "ISBN_13"),
      status := Some(PENDING),
      startDate := None,
      endDate := None,
      rating := None,
      notes := None)
  }

  /** `"manual_\(Int(Date().timeIntervalSince1970))"` for the whole-seconds timestamp. */
  function ManualId(timestamp: int): (r: string)
    ensures StartsWith(r, MANUAL_PREFIX) && r[|MANUAL_PREFIX|..] == IntToString(timestamp)
  {
    MANUAL_PREFIX + IntToString(timestamp)
  }

  /** The record `saveManualBook` stores. `imagePath` is where the picked image was written,
      None when there was no image or writing it failed. An empty author or ISBN is stored as
      missing and any other as typed; an empty description becomes the default text; the ISBN
      always goes to `isbn13`; the book starts PENDING and unread. */
  function ManualEntity(title: string, author: string, pages: string, isbn: string, description: string,
                        timestamp: int, imagePath: Option<string>): (b: Book)
    ensures b.gid == ManualId(timestamp) && b.title == title && b.subtitle.None?
    ensures author == [] ==> b.authors.None?
    ensures author != [] ==> b.authors == Some(author)
    ensures isbn == [] ==> b.isbn13.None?
    ensures isbn != [] ==> b.isbn13 == Some(isbn)
    ensures b.isbn10.None?
    ensures description == [] ==> b.description == Some(DEFAULT_DESCRIPTION)
    ensures description != [] ==> b.description == Some(description)
    ensures b.thumbnailUrl == imagePath
    ensures b.pageCount.Some?
    ensures b.status == Some(PENDING) && b.startDate.None? && b.endDate.None? && b.rating.None? && b.notes.None?
  {
    Book(
      gid := ManualId(timestamp),
      title := title,
      subtitle := None,
      authors := if author == [] then None else Some(author),
      description := Some(if description == [] then DEFAULT_DESCRIPTION else description),
      pageCount := Some(ParseInt(pages, INT64_MIN, INT64_MAX).GetOr(0)),
      thumbnailUrl := imagePath,
      isbn10 := None,
      isbn13 := if isbn == [] then None else Some(isbn),
      status := Some(PENDING),
      startDate := None,
      endDate := None,
      rating := None,
      notes := None)
  }

  class SearchViewModel {
    var query: string
    var results: seq<BookItem>
    var isLoading: bool
    var errorMessage: Option<string>

    constructor ()
      ensures query == [] && results == [] && !isLoading && errorMessage.None?
    {
      query, results, isLoading, errorMessage := "", [], false, None;
    }

    /** `search`. `outcome` is what `searchRemoteBooks(query:)` produced: the books, or the
        description of the error it threw. An empty query changes nothing; a query of spaces is
        searched. */
    method Search(outcome: Result<seq<BookItem>, string>)
      modifies this
      ensures query == old(query)
      ensures old(query) == [] ==>
                results == old(results) && isLoading == old(isLoading) && errorMessage == old(errorMessage)
      ensures old(query) != [] ==> !isLoading
      ensures old(query) != [] && outcome.Success? ==> results == outcome.value && errorMessage.None?
      ensures old(query) != [] && outcome.Failure? ==>
                results == old(results) && errorMessage == Some(ERROR_PREFIX + outcome.error)
    {
      if query == [] {
        return;
      }
      isLoading := true;
      errorMessage := None;
      if outcome.Success? {
        results := outcome.value;
      } else {
        errorMessage := Some(ERROR_PREFIX + outcome.error);
      }
      isLoading := false;
    }

    /** `saveBook`: builds the record field by field and stores it. */
    method SaveBook(repo: BookRepository, bookItem: BookItem)
      requires repo.Valid()
      modifies repo
      ensures repo.Valid()
      ensures repo.books == Upsert(old(repo.books), SavedEntity(bookItem))
      ensures repo.shelves == old(repo.shelves) && repo.members == old(repo.members)
    {
      var vol := bookItem.volumeInfo;
      var authorsString := JoinAuthors(vol.authors);
      var thumb := if vol.imageLinks.Some? then vol.imageLinks.value.thumbnail else None;
      if thumb.Some? && StartsWith(thumb.value, "http:") {
        thumb := Some(ReplaceAll(thumb.value, "http:", "https:"));
      }
      var isbn10 := FirstIdentifier(vol.industryIdentifiers, "ISBN_10");
      var isbn13 := FirstIdentifier(vol.industryIdentifiers, "ISBN_13");
      var newBook := Book(bookItem.id, vol.title, vol.subtitle, authorsString, vol.description,
                          vol.pageCount, thumb, isbn10, isbn13, Some(PENDING),
                          None, None, None, None);
      repo.InsertBook(newBook);
    }

    /** `saveManualBook`: `timestamp` is the clock's whole seconds and `imagePath` the outcome
        of writing the picked image. */
    method SaveManualBook(repo: BookRepository, title: string, author: string, pages: string, isbn: string,
                          description: string, timestamp: int, imagePath: Option<string>)
      requires repo.Valid()
      modifies repo
      ensures repo.Valid()
      ensures repo.books == Upsert(old(repo.books), ManualEntity(title, author, pages, isbn, description, timestamp, imagePath))
      ensures repo.shelves == old(repo.shelves) && repo.members == old(repo.members)
    {
      var id := ManualId(timestamp);
      var finalDesc := if description == [] then DEFAULT_DESCRIPTION else description;
      var newBook := Book(id, title, None, if author == [] then None else Some(author), Some(finalDesc),
                          Some(ParseInt(pages, INT64_MIN, INT64_MAX).GetOr(0)), imagePath,
                          None, if isbn == [] then None else Some(isbn), Some(PENDING),
                          None, None, None, None);
      repo.InsertBook(newBook);
    }
  }

  /** The iOS record equals the shared mapper's exactly when the thumbnail is absent, starts
      with "http:", or contains no "http:" at all; a thumbnail with "http:" further in is
      secured on Android and left as it is here. */
  lemma SavedEntityVsMapper(item: BookItem)
    ensures SavedEntity(item) == ToDatabaseEntity(item) <==>
            var links := item.volumeInfo.imageLinks;
            links.None? || links.value.thumbnail.None? ||
            StartsWith(links.value.thumbnail.value, "http:") || !Contains(links.value.thumbnail.value, "http:")
  {
    var links := item.volumeInfo.imageLinks;
    if links.Some? && links.value.thumbnail.Some? {
      var t := links.value.thumbnail.value;
      if !StartsWith(t, "http:") {
        if Contains(t, "http:") {
          RewriteRemovesHttp(t);
          assert SavedEntity(item).thumbnailUrl != ToDatabaseEntity(item).thumbnailUrl;
        } else {
          ReplaceAllAbsent(t, "http:", "https:");
        }
      }
    }
  }

  /** Registrations at different seconds get different ids. */
  lemma ManualIdsDistinct(t1: int, t2: int)
    requires ManualId(t1) == ManualId(t2)
    ensures t1 == t2
  {
    assert IntToString(t1) == ManualId(t1)[|MANUAL_PREFIX|..];
    assert IntToString(t2) == ManualId(t2)[|MANUAL_PREFIX|..];
    IntToStringInjective(t1, t2);
  }

  /** The page count is never missing: a number that fits 64 bits is kept, and any other text
      (the empty text, letters, an overflowing number) stores 0. */
  lemma ManualPages(title: string, author: string, pages: string, isbn: string, description: string,
                    timestamp: int, imagePath: Option<string>, n: int)
    requires INT64_MIN <= n <= INT64_MAX
    ensures var b := ManualEntity(title, author, pages, isbn, description, timestamp, imagePath);
            b.pageCount.Some? &&
            (pages == IntToString(n) ==> b.pageCount == Some(n)) &&
            (ParseInt(pages, INT64_MIN, INT64_MAX).None? ==> b.pageCount == Some(0))
  {
    if pages == IntToString(n) {
      ParseIntToString(n, INT64_MIN, INT64_MAX);
    }
  }
}
