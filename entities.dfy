/** The records the view-models work on: the stored `Book` and `Category` rows and the
    `BookItem` / `VolumeInfo` shapes of a catalog search result. */
module Entities {
  import opened Wrappers

  const PENDING := "PENDING"
  const IN_PROGRESS := "IN_PROGRESS"
  const COMPLETED := "COMPLETED"

  /** A stored book. `status` is the raw optional string the code compares; `pageCount` and
      `rating` are the 64-bit columns, read here as unbounded integers. */
  datatype Book = Book(
    gid: string,
    title: string,
    subtitle: Option<string>,
    authors: Option<string>,
    description: Option<string>,
    pageCount: Option<int>,
    thumbnailUrl: Option<string>,
    isbn10: Option<string>,
    isbn13: Option<string>,
    status: Option<string>,
    startDate: Option<string>,
    endDate: Option<string>,
    rating: Option<int>,
    notes: Option<string>)

  /** `pageCount ?: 0`. */
  function PagesOrZero(b: Book): int {
    b.pageCount.GetOr(0)
  }

  /** A shelf. */
  datatype Category = Category(id: int, name: string, description: Option<string>, colorHex: int)

  datatype ImageLinks = ImageLinks(smallThumbnail: Option<string>, thumbnail: Option<string>)

  /** `IndustryIdentifier(type, identifier)`; `kind` is "ISBN_10" or "ISBN_13". */
  datatype IndustryIdentifier = IndustryIdentifier(kind: string, identifier: string)

  /** Catalog metadata plus the reading state the detail screens keep alongside it. */
  datatype VolumeInfo = VolumeInfo(
    title: string,
    subtitle: Option<string>,
    authors: Option<seq<string>>,
    description: Option<string>,
    pageCount: Option<int>,
    imageLinks: Option<ImageLinks>,
    industryIdentifiers: Option<seq<IndustryIdentifier>>,
    myStatus: Option<string>,
    myRating: Option<int>,
    myStartDate: Option<string>,
    myEndDate: Option<string>)

  datatype BookItem = BookItem(id: string, volumeInfo: VolumeInfo)

  /** The local copy of a book after a status change, as both platforms build it
      (Android `updateSelectedBookStatus`, iOS `refreshLocalBook`): status and both dates are
      replaced, the rating only when one is given, and the catalog fields are kept. */
  function WithReadingState(item: BookItem, status: string, start: Option<string>, end: Option<string>,
                            rating: Option<int>): (r: BookItem)
    ensures r.id == item.id
    ensures r.volumeInfo.myStatus == Some(status)
    ensures r.volumeInfo.myStartDate == start && r.volumeInfo.myEndDate == end
    ensures r.volumeInfo.myRating == if rating.Some? then rating else item.volumeInfo.myRating
    ensures r.volumeInfo.(myStatus := item.volumeInfo.myStatus, myRating := item.volumeInfo.myRating,
                          myStartDate := item.volumeInfo.myStartDate, myEndDate := item.volumeInfo.myEndDate)
            == item.volumeInfo
  {
    var info := item.volumeInfo;
    BookItem(item.id, info.(myStatus := Some(status), myStartDate := start, myEndDate := end,
                            myRating := if rating.Some? then rating else info.myRating))
  }
}
