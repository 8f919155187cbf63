/** The iOS shelf-detail screen, bound to one shelf for its whole life. */
module IosShelf {
  import opened Seqs
  import opened Entities
  import opened Repository
  import opened ShelfView

  class ShelfDetailViewModel {
    const shelfId: int
    const shelfName: string
    var booksInShelf: seq<Book>
    var availableBooks: seq<Book>
    var isLoading: bool

    /** `init` binds the shelf and loads its books. */
    constructor (repo: BookRepository, shelfId: int, shelfName: string)
      ensures this.shelfId == shelfId && this.shelfName == shelfName
      ensures booksInShelf == InShelf(repo.books, repo.members, shelfId)
      ensures availableBooks == [] && !isLoading
    {
      this.shelfId := shelfId;
      this.shelfName := shelfName;
      booksInShelf, availableBooks, isLoading := [], [], false;
      new;
      LoadBooks(repo);
    }

    method LoadBooks(repo: BookRepository)
      modifies this
      ensures booksInShelf == InShelf(repo.books, repo.members, shelfId)
      ensures !isLoading && availableBooks == old(availableBooks)
    {
      isLoading := true;
      booksInShelf := repo.GetBooksInShelf(shelfId);
      isLoading := false;
    }

    /** Every stored book whose `gid` is not on the shelf list held now. */
    method LoadAvailableBooks(repo: BookRepository)
      modifies this
      ensures availableBooks == Available(repo.books, booksInShelf)
      ensures booksInShelf == old(booksInShelf) && isLoading == old(isLoading)
    {
      var allBooks := repo.GetAllBooks();
      var existingIds := set b | b in booksInShelf :: b.gid;
      availableBooks := Filter(allBooks, WithoutGids(existingIds));
    }

    /** Adds the membership, then reloads both lists. */
    method AddBook(repo: BookRepository, book: Book)
      requires repo.Valid()
      modifies this, repo
      ensures repo.Valid()
      ensures repo.members == if book.gid in Gids(repo.books) && shelfId in ShelfIds(repo.shelves)
                              then old(repo.members) + {Membership(book.gid, shelfId)} else old(repo.members)
      ensures repo.books == old(repo.books) && repo.shelves == old(repo.shelves)
      ensures booksInShelf == InShelf(repo.books, repo.members, shelfId)
      ensures availableBooks == Available(repo.books, booksInShelf) && !isLoading
    {
      repo.AddBookToShelf(book.gid, shelfId);
      LoadBooks(repo);
      LoadAvailableBooks(repo);
    }

    /** Removes, for each offset of the shelf list on screen, that book's membership, then
        reloads only the shelf list. */
    method RemoveBook(repo: BookRepository, offsets: seq<int>)
      requires repo.Valid() && IsIndexSet(offsets, |booksInShelf|)
      modifies this, repo
      ensures repo.Valid()
      ensures repo.members == old(repo.members) - set g | g in GidsAt(old(booksInShelf), offsets) :: Membership(g, shelfId)
      ensures repo.books == old(repo.books) && repo.shelves == old(repo.shelves)
      ensures booksInShelf == InShelf(repo.books, repo.members, shelfId)
      ensures availableBooks == old(availableBooks) && !isLoading
    {
      var k := 0;
      while k < |offsets|
        invariant 0 <= k <= |offsets|
        invariant repo.Valid() && booksInShelf == old(booksInShelf)
        invariant repo.members == old(repo.members) - set g | g in GidsAt(booksInShelf, offsets[..k]) :: Membership(g, shelfId)
        invariant repo.books == old(repo.books) && repo.shelves == old(repo.shelves)
        invariant availableBooks == old(availableBooks)
      {
        var book := booksInShelf[offsets[k]];
        repo.RemoveBookFromShelf(book.gid, shelfId);
        GidsAtExtend(booksInShelf, offsets, k);
        k := k + 1;
      }
      assert offsets[..k] == offsets;
      LoadBooks(repo);
    }
  }
}
