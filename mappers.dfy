/** `BookItem.toDatabaseEntity()`: a catalog search result turned into a stored book. */
module Mappers {
  import opened Wrappers
  import opened Text
  import opened Seqs
  import opened Entities

  const AUTHOR_SEPARATOR := ", "

  /** `authors?.joinToString(", ")`. */
  function JoinAuthors(authors: Option<seq<string>>): (r: Option<string>)
    ensures r.None? <==> authors.None?
  {
    if authors.Some? then Some(Join(authors.value, AUTHOR_SEPARATOR)) else None
  }

  /** `thumbnail?.replace("http:", "https:")`: every occurrence, wherever it is. Cut the URL
      at each "http:"; the stored URL is the same pieces, in order, glued with "https:". */
  function SecureThumbnail(links: Option<ImageLinks>): (r: Option<string>)
    ensures r.None? <==> links.None? || links.value.thumbnail.None?
    ensures r.Some? ==> var pieces := Split(links.value.thumbnail.value, "http:");
                        Join(pieces, "http:") == links.value.thumbnail.value &&
                        r.value == Join(pieces, "https:")
    ensures r.Some? ==> !Contains(r.value, "http:")
  {
    if links.Some? && links.value.thumbnail.Some? then
      var thumb := links.value.thumbnail.value;
      RewriteRemovesHttp(thumb);
      ReplaceIsSplitJoin(thumb, "http:", "https:");
      JoinSplit(thumb, "http:");
      Some(ReplaceAll(thumb, "http:", "https:"))
    else None
  }

  /** `industryIdentifiers?.find { it.type == kind }?.identifier`. */
  function FirstIdentifier(ids: Option<seq<IndustryIdentifier>>, kind: string): (r: Option<string>)
    ensures r.None? <==> ids.None? || forall i :: 0 <= i < |ids.value| ==> ids.value[i].kind != kind
    ensures r.Some? ==> exists k :: 0 <= k < |ids.value| && ids.value[k].kind == kind &&
                                    ids.value[k].identifier == r.value &&
                                    forall j :: 0 <= j < k ==> ids.value[j].kind != kind
  {
    if ids.None? then None
    else
      var found := Find(ids.value, (x: IndustryIdentifier) => x.kind == kind);
      if found.Some? then Some(found.value.identifier) else None
  }

  /** The catalog fields are copied, and each ISBN is the identifier of the first entry of its
      kind (`FirstIdentifier` states the first match); whatever `myStatus`, `myRating` or dates the result
      carries, the new book is PENDING with no dates, rating or notes. */
  function ToDatabaseEntity(item: BookItem): (b: Book)
    ensures b.gid == item.id && b.title == item.volumeInfo.title
    ensures b.subtitle == item.volumeInfo.subtitle && b.description == item.volumeInfo.description
    ensures b.pageCount == item.volumeInfo.pageCount
    ensures b.authors.None? <==> item.volumeInfo.authors.None?
    ensures b.isbn10 == FirstIdentifier(item.volumeInfo.industryIdentifiers, "ISBN_10")
    ensures b.isbn13 == FirstIdentifier(item.volumeInfo.industryIdentifiers, "ISBN_13")
    ensures b.status == Some(PENDING)
    ensures b.startDate.None? && b.endDate.None? && b.rating.None? && b.notes.None?
  {
    var info := item.volumeInfo;
    Book(
      gid := item.id,
      title := info.title,
      subtitle := info.subtitle,
      authors := JoinAuthors(info.authors),
      description := info.description,
      pageCount := info.pageCount,
      thumbnailUrl := SecureThumbnail(info.imageLinks),
      isbn10 := FirstIdentifier(info.industryIdentifiers, "ISBN_10"),
      isbn13 := FirstIdentifier(info.industryIdentifiers, "ISBN_13"),
      status := Some(PENDING),
      startDate := None,
      endDate := None,
      rating := None,
      notes := None)
  }

  /** For a non-empty author list, the stored author string splits back into the catalog's list,
      so the statistics that split on ", " count the same names the catalog listed (when no name
      contains ", "). An empty list is stored as "", which splits into one empty name. */
  lemma EntityAuthorsRoundTrip(item: BookItem)
    requires item.volumeInfo.authors.Some? && |item.volumeInfo.authors.value| > 0
    requires forall k :: 0 <= k < |item.volumeInfo.authors.value| ==> !Contains(item.volumeInfo.authors.value[k], ", ")
    ensures ToDatabaseEntity(item).authors.Some?
    ensures Split(ToDatabaseEntity(item).authors.value, ", ") == item.volumeInfo.authors.value
  {
    SplitJoinNames(item.volumeInfo.authors.value);
  }

  /** The stored thumbnail is the catalog's with every "http:" turned into "https:" and the rest
      kept, so it never holds "http:"; it is absent exactly when the result has none. */
  lemma EntityThumbnailSecure(item: BookItem)
    ensures var t := ToDatabaseEntity(item).thumbnailUrl;
      (t.None? <==> item.volumeInfo.imageLinks.None? || item.volumeInfo.imageLinks.value.thumbnail.None?)
      && (t.Some? ==> t.value == Join(Split(item.volumeInfo.imageLinks.value.thumbnail.value, "http:"), "https:"))
      && (t.Some? ==> !Contains(t.value, "http:"))
  {
  }

  /** A thumbnail without "http:" is stored as it is. */
  lemma {:induction false} RewriteLeavesSecureUrl(s: string)
    requires !Contains(s, "http:")
    ensures ReplaceAll(s, "http:", "https:") == s
    decreases |s|
  {
    if |s| >= 5 {
      assert s[..5] != "http:";
      RewriteLeavesSecureUrl(s[1..]);
      assert [s[0]] + s[1..] == s;
    }
  }
}
