/** The iOS library screen: status and text filters that re-run whenever either is set, the
    shelf list with one book count per shelf, and deletion by position on screen. */
module IosLibrary {
  import opened Wrappers
  import opened Seqs
  import opened Text
  import opened Entities
  import opened Repository
  import AndroidLibrary

  /** A row of the shelf list: the shelf and how many books it holds. */
  datatype ShelfUIItem = ShelfUIItem(category: Category, count: int)

  /** Only the empty query switches the text filter off; a title or an author list must
      contain it ignoring case, and a book without authors matches on its title alone. */
  predicate Keep(status: Option<string>, query: string, b: Book) {
    (status.None? || b.status == status) &&
    (query == [] || ContainsIgnoreCase(b.title, query) ||
     (b.authors.Some? && ContainsIgnoreCase(b.authors.value, query)))
  }

  function KeepFn(status: Option<string>, query: string): Book -> bool {
    (b: Book) => Keep(status, query, b)
  }

  function Visible(all: seq<Book>, status: Option<string>, query: string): (r: seq<Book>)
    ensures forall b :: b in r <==> b in all && Keep(status, query, b)
  {
    Filter(all, KeepFn(status, query))
  }

  /** The shelf list `loadData` builds: each shelf in store order with its member count. */
  predicate IsShelfList(items: seq<ShelfUIItem>, shelves: seq<Category>, books: seq<Book>, members: set<Membership>) {
    |items| == |shelves| &&
    forall i :: 0 <= i < |items| ==>
      items[i] == ShelfUIItem(shelves[i], |InShelf(books, members, shelves[i].id)|)
  }

  class LibraryViewModel {
    var allBooks: seq<Book>
    var books: seq<Book>
    var shelves: seq<ShelfUIItem>
    var isLoading: bool
    var searchQuery: string
    var statusFilter: Option<string>

    ghost predicate Valid()
      reads this
    {
      books == Visible(allBooks, statusFilter, searchQuery)
    }

    /** `init` loads everything with no filter set. */
    constructor (repo: BookRepository)
      ensures Valid() && allBooks == repo.books && books == repo.books && !isLoading
      ensures IsShelfList(shelves, repo.shelves, repo.books, repo.members)
      ensures searchQuery == [] && statusFilter.None?
    {
      allBooks, books, shelves, isLoading := [], [], [], false;
      searchQuery, statusFilter := "", None;
      new;
      LoadData(repo);
      NoFilterShowsAll(allBooks);
    }

    /** Setting `searchQuery` runs the filters (its `didSet`). */
    method SetSearchQuery(query: string)
      modifies this
      ensures Valid() && searchQuery == query
      ensures allBooks == old(allBooks) && statusFilter == old(statusFilter)
      ensures shelves == old(shelves) && isLoading == old(isLoading)
    {
      searchQuery := query;
      ApplyFilters();
    }

    /** Setting `statusFilter` runs the filters (its `didSet`). */
    method SetStatusFilter(status: Option<string>)
      modifies this
      ensures Valid() && statusFilter == status
      ensures allBooks == old(allBooks) && searchQuery == old(searchQuery)
      ensures shelves == old(shelves) && isLoading == old(isLoading)
    {
      statusFilter := status;
      ApplyFilters();
    }

    /** Reloads the books and the shelf list, then the filters; loading is over on return. */
    method LoadData(repo: BookRepository)
      modifies this
      ensures Valid() && allBooks == repo.books && !isLoading
      ensures IsShelfList(shelves, repo.shelves, repo.books, repo.members)
      ensures searchQuery == old(searchQuery) && statusFilter == old(statusFilter)
    {
      isLoading := true;
      allBooks := repo.GetAllBooks();
      var categories := repo.GetAllShelves();
      var tempShelves: seq<ShelfUIItem> := [];
      for i := 0 to |categories|
        invariant IsShelfList(tempShelves, categories[..i], repo.books, repo.members)
        invariant allBooks == repo.books && categories == repo.shelves
        invariant searchQuery == old(searchQuery) && statusFilter == old(statusFilter)
      {
        var count := repo.CountBooksInShelf(categories[i].id);
        tempShelves := tempShelves + [ShelfUIItem(categories[i], count)];
      }
      assert categories[..|categories|] == categories;
      shelves := tempShelves;
      ApplyFilters();
      isLoading := false;
    }

    method ApplyFilters()
      modifies this
      ensures Valid()
      ensures allBooks == old(allBooks) && searchQuery == old(searchQuery) && statusFilter == old(statusFilter)
      ensures shelves == old(shelves) && isLoading == old(isLoading)
    {
      var all := allBooks;
      var status, query := statusFilter, searchQuery;
      ghost var k0 := (b: Book) => true;
      ghost var k1 := (b: Book) => status.None? || b.status == status;
      FilterKeepsAll(all, k0);
      var result := all;
      result := FilterStep(result, all, status.Some?, (b: Book) => b.status == status, k0, k1);
      result := FilterStep(result, all, query != [],
                           (b: Book) => ContainsIgnoreCase(b.title, query) ||
                                        (b.authors.Some? && ContainsIgnoreCase(b.authors.value, query)),
                           k1, KeepFn(status, query));
      books := result;
    }

    /** Deletes the books at `offsets` of the filtered list on screen (not of the full list),
        then reloads. */
    method DeleteBook(repo: BookRepository, offsets: seq<int>)
      requires repo.Valid() && IsIndexSet(offsets, |books|)
      modifies this, repo
      ensures repo.Valid()
      ensures repo.books == Filter(old(repo.books), WithoutGids(GidsAt(old(books), offsets)))
      ensures repo.members == set m | m in old(repo.members) && m.bookId !in GidsAt(old(books), offsets)
      ensures repo.shelves == old(repo.shelves)
      ensures Valid() && allBooks == repo.books && !isLoading
      ensures IsShelfList(shelves, repo.shelves, repo.books, repo.members)
      ensures searchQuery == old(searchQuery) && statusFilter == old(statusFilter)
    {
      DeleteAt(repo, books, offsets);
      LoadData(repo);
    }

    method CreateShelf(repo: BookRepository, name: string, description: string, colorHex: int)
      requires repo.Valid()
      modifies this, repo
      ensures repo.Valid()
      ensures |repo.shelves| == |old(repo.shelves)| + 1 && repo.shelves[..|old(repo.shelves)|] == old(repo.shelves)
      ensures var c := repo.shelves[|old(repo.shelves)|];
              c.name == name && c.description == Some(description) && c.colorHex == colorHex &&
              c.id !in ShelfIds(old(repo.shelves))
      ensures repo.books == old(repo.books) && repo.members == old(repo.members)
      ensures Valid() && allBooks == repo.books && !isLoading
      ensures IsShelfList(shelves, repo.shelves, repo.books, repo.members)
    {
      var c := repo.CreateShelf(name, description, colorHex);
      LoadData(repo);
    }

    method DeleteShelf(repo: BookRepository, id: int)
      requires repo.Valid()
      modifies this, repo
      ensures repo.Valid()
      ensures repo.shelves == Filter(old(repo.shelves), (c: Category) => c.id != id)
      ensures repo.members == set m | m in old(repo.members) && m.shelfId != id
      ensures repo.books == old(repo.books)
      ensures Valid() && allBooks == repo.books && !isLoading
      ensures IsShelfList(shelves, repo.shelves, repo.books, repo.members)
    {
      repo.DeleteShelf(id);
      LoadData(repo);
    }
  }

  /** The loop of `deleteBook(at:)`: deletes, offset by offset, the book at that offset of
      the list `shown`. */
  method DeleteAt(repo: BookRepository, shown: seq<Book>, offsets: seq<int>)
    requires repo.Valid() && IsIndexSet(offsets, |shown|)
    modifies repo
    ensures repo.Valid()
    ensures repo.books == Filter(old(repo.books), WithoutGids(GidsAt(shown, offsets)))
    ensures repo.members == set m | m in old(repo.members) && m.bookId !in GidsAt(shown, offsets)
    ensures repo.shelves == old(repo.shelves)
  {
    var k := 0;
    ghost var gone: set<string> := {};
    ghost var books0, members0 := repo.books, repo.members;
    assert offsets[..0] == [];
    FilterKeepsAll(books0, WithoutGids({}));
    while k < |offsets|
      invariant 0 <= k <= |offsets|
      invariant repo.Valid()
      invariant gone == GidsAt(shown, offsets[..k])
      invariant repo.books == Filter(books0, WithoutGids(gone))
      invariant repo.members == set m | m in members0 && m.bookId !in gone
      invariant repo.shelves == old(repo.shelves)
    {
      var gid := shown[offsets[k]].gid;
      repo.DeleteBookById(gid);
      DeleteStep(books0, members0, gone, gid);
      GidsAtExtend(shown, offsets, k);
      gone := gone + {gid};
      k := k + 1;
    }
    assert offsets[..k] == offsets;
  }

  /** Deleting one more `gid` after the set `gone`. */
  lemma DeleteStep(books: seq<Book>, members: set<Membership>, gone: set<string>, gid: string)
    ensures Filter(Filter(books, WithoutGids(gone)), WithoutGid(gid)) == Filter(books, WithoutGids(gone + {gid}))
    ensures (set m | m in (set m | m in members && m.bookId !in gone) && m.bookId != gid)
            == set m | m in members && m.bookId !in gone + {gid}
  {
    FilterThen(books, WithoutGids(gone), WithoutGid(gid), WithoutGids(gone + {gid}));
  }

  /** The list on screen keeps the store's order. */
  lemma VisibleIsSubsequence(all: seq<Book>, status: Option<string>, query: string)
    ensures IsSubsequence(Visible(all, status, query), all)
  {
    FilterIsSubsequence(all, KeepFn(status, query));
  }

  /** With neither filter set every stored book is shown. */
  lemma NoFilterShowsAll(all: seq<Book>)
    ensures Visible(all, None, []) == all
  {
    FilterKeepsAll(all, KeepFn(None, []));
  }

  /** Every book shown has the chosen status, and a non-empty query occurs in its title or in
      its author list, ignoring case. */
  lemma VisibleMeetsFilters(all: seq<Book>, status: Option<string>, query: string, b: Book)
    requires b in Visible(all, status, query)
    ensures status.Some? ==> b.status == status
    ensures query != [] && b.authors.None? ==> ContainsIgnoreCase(b.title, query)
    ensures query != [] ==> ContainsIgnoreCase(b.title, query) || ContainsIgnoreCase(b.authors.value, query)
  {
  }

  /** Unlike the Android screen, a query of spaces is applied: a book with an empty title and no
      authors is hidden here and shown there. */
  lemma WhitespaceQueryDiffersFromAndroid(b: Book)
    requires b.title == [] && b.authors.None?
    ensures b !in Visible([b], None, " ")
    ensures b in AndroidLibrary.Visible([b], AndroidLibrary.FilterState(None, " ", "", "", "", ""))
  {
    ContainsShort(LowerAll(b.title), LowerAll(" "));
    assert IsBlank(" ");
    assert AndroidLibrary.ToIntOrNull("").None?;
  }
}
