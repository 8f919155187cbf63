/** What both shelf-detail screens compute the same way: the books that could still be added
    to a shelf, which are all stored books whose `gid` is not among the shelf's books. */
module ShelfView {
  import opened Seqs
  import opened Entities
  import opened Repository

  /** `all.filter { it.gid !in booksInShelf.map { it.gid }.toSet() }`. */
  function Available(all: seq<Book>, inShelf: seq<Book>): (r: seq<Book>)
    ensures forall b :: b in r <==> b in all && b.gid !in Gids(inShelf)
  {
    Filter(all, WithoutGids(Gids(inShelf)))
  }

  /** The candidates keep the store's order. */
  lemma AvailableIsSubsequence(all: seq<Book>, inShelf: seq<Book>)
    ensures IsSubsequence(Available(all, inShelf), all)
  {
    FilterIsSubsequence(all, WithoutGids(Gids(inShelf)));
  }

  /** No candidate shares a `gid` with a book on the shelf, and every other stored book is one. */
  lemma AvailableSplitsStore(all: seq<Book>, inShelf: seq<Book>)
    ensures forall a, b :: a in Available(all, inShelf) && b in inShelf ==> a.gid != b.gid
    ensures forall b :: b in all ==> b in Available(all, inShelf) || b.gid in Gids(inShelf)
  {
  }

  function NotInShelf(members: set<Membership>, shelfId: int): Book -> bool {
    (b: Book) => Membership(b.gid, shelfId) !in members
  }

  /** When the shelf's books are the ones the store reports for it, the candidates are exactly
      the stored books that are not members of the shelf. */
  lemma AvailableAreNonMembers(all: seq<Book>, members: set<Membership>, shelfId: int)
    ensures Available(all, InShelf(all, members, shelfId)) == Filter(all, NotInShelf(members, shelfId))
  {
    var inShelf := InShelf(all, members, shelfId);
    forall i | 0 <= i < |all|
      ensures WithoutGids(Gids(inShelf))(all[i]) == NotInShelf(members, shelfId)(all[i])
    {
      var b := all[i];
      if Membership(b.gid, shelfId) in members {
        assert b in inShelf;
      }
      if b.gid in Gids(inShelf) {
        var x :| x in inShelf && x.gid == b.gid;
        assert Membership(x.gid, shelfId) in members;
      }
    }
    FilterExt(all, WithoutGids(Gids(inShelf)), NotInShelf(members, shelfId));
  }

  /** A book that is on the shelf is never offered for it. */
  lemma MemberNotAvailable(all: seq<Book>, members: set<Membership>, shelfId: int, b: Book)
    requires Membership(b.gid, shelfId) in members
    ensures b !in Available(all, InShelf(all, members, shelfId))
  {
    AvailableAreNonMembers(all, members, shelfId);
  }
}
