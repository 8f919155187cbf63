/** The Android shelf-detail screen: the shelf shown, its books, and the books that could be
    added to it. */
module AndroidShelf {
  import opened Wrappers
  import opened Seqs
  import opened Entities
  import opened Repository
  import opened ShelfView

  function HasId(shelfId: int): Category -> bool {
    (c: Category) => c.id == shelfId
  }

  class ShelfDetailViewModel {
    var shelf: Option<Category>
    var booksInShelf: seq<Book>
    var availableBooks: seq<Book>

    constructor ()
      ensures shelf.None? && booksInShelf == [] && availableBooks == []
    {
      shelf, booksInShelf, availableBooks := None, [], [];
    }

    /** `loadShelf`: the first shelf with the id, or None, and that id's books. */
    method LoadShelf(repo: BookRepository, shelfId: int)
      modifies this
      ensures shelf == Find(repo.shelves, HasId(shelfId))
      ensures shelf.None? <==> shelfId !in ShelfIds(repo.shelves)
      ensures shelf.Some? ==> shelf.value in repo.shelves && shelf.value.id == shelfId
      ensures booksInShelf == InShelf(repo.books, repo.members, shelfId)
      ensures availableBooks == old(availableBooks)
    {
      var allShelves := repo.GetAllShelves();
      shelf := Find(allShelves, HasId(shelfId));
      if shelf.None? {
        forall c | c in allShelves ensures c.id != shelfId {
          var i :| 0 <= i < |allShelves| && allShelves[i] == c;
          assert !HasId(shelfId)(allShelves[i]);
        }
      }
      RefreshBooks(repo, shelfId);
    }

    method RefreshBooks(repo: BookRepository, shelfId: int)
      modifies this
      ensures booksInShelf == InShelf(repo.books, repo.members, shelfId)
      ensures shelf == old(shelf) && availableBooks == old(availableBooks)
    {
      booksInShelf := repo.GetBooksInShelf(shelfId);
    }

    /** `loadAvailableBooks`: every stored book whose `gid` is not on the shelf list held now. */
    method LoadAvailableBooks(repo: BookRepository)
      modifies this
      ensures availableBooks == Available(repo.books, booksInShelf)
      ensures shelf == old(shelf) && booksInShelf == old(booksInShelf)
    {
      var all := repo.GetAllBooks();
      var existingIds := set b | b in booksInShelf :: b.gid;
      availableBooks := Filter(all, WithoutGids(existingIds));
    }

    /** With a shelf shown: adds the membership, reloads the shelf's books, then the candidates,
        so the added book is no longer offered. Without one nothing happens. */
    method AddBookToShelf(repo: BookRepository, book: Book)
      requires repo.Valid()
      modifies this, repo
      ensures repo.Valid()
      ensures repo.books == old(repo.books) && repo.shelves == old(repo.shelves)
      ensures shelf == old(shelf)
      ensures old(shelf).None? ==> repo.members == old(repo.members) &&
                                   booksInShelf == old(booksInShelf) && availableBooks == old(availableBooks)
      ensures old(shelf).Some? ==>
                && repo.members == (if book.gid in Gids(repo.books) && shelf.value.id in ShelfIds(repo.shelves)
                                    then old(repo.members) + {Membership(book.gid, shelf.value.id)}
                                    else old(repo.members))
                && booksInShelf == InShelf(repo.books, repo.members, shelf.value.id)
                && availableBooks == Available(repo.books, booksInShelf)
    {
      if shelf.None? {
        return;
      }
      var s := shelf.value;
      repo.AddBookToShelf(book.gid, s.id);
      RefreshBooks(repo, s.id);
      LoadAvailableBooks(repo);
    }

    /** With a shelf shown: removes the membership and reloads only the shelf's books; the
        candidate list is left as it was. Without one nothing happens. */
    method RemoveBookFromShelf(repo: BookRepository, book: Book)
      requires repo.Valid()
      modifies this, repo
      ensures repo.Valid()
      ensures repo.books == old(repo.books) && repo.shelves == old(repo.shelves)
      ensures shelf == old(shelf) && availableBooks == old(availableBooks)
      ensures old(shelf).None? ==> repo.members == old(repo.members) && booksInShelf == old(booksInShelf)
      ensures old(shelf).Some? ==>
                && repo.members == old(repo.members) - {Membership(book.gid, shelf.value.id)}
                && booksInShelf == InShelf(repo.books, repo.members, shelf.value.id)
    {
      if shelf.None? {
        return;
      }
      var s := shelf.value;
      repo.RemoveBookFromShelf(book.gid, s.id);
      RefreshBooks(repo, s.id);
    }
  }

  /** After an add on a shown shelf, the book is on the shelf list and not among the
      candidates, provided the store holds both the book and the shelf. */
  lemma AddedBookMovesOver(all: seq<Book>, members: set<Membership>, shelfId: int, book: Book)
    requires book in all
    requires Membership(book.gid, shelfId) in members
    ensures book in InShelf(all, members, shelfId)
    ensures book !in Available(all, InShelf(all, members, shelfId))
  {
    MemberNotAvailable(all, members, shelfId, book);
  }

  /** Because a removal does not reload the candidates, the removed book is then in neither
      list when the candidates were up to date before. */
  lemma RemovedBookInNeither(all: seq<Book>, members: set<Membership>, shelfId: int, book: Book)
    requires book in all && Membership(book.gid, shelfId) in members
    ensures book !in Available(all, InShelf(all, members, shelfId))
    ensures book !in InShelf(all, members - {Membership(book.gid, shelfId)}, shelfId)
  {
    MemberNotAvailable(all, members, shelfId, book);
  }
}
