/** The repository the view-models talk to. Only `getAllBooks`, `insertBook` and
    `searchRemoteBooks` have source; the shelf and status operations, and the ordering and
    cascade behaviour of the storage queries, are assumptions, stated as the contracts of a
    plain in-memory store: books in insertion order, shelves, and a membership relation. */
module Repository {
  import opened Wrappers
  import opened Seqs
  import opened Entities

  datatype Membership = Membership(bookId: string, shelfId: int)

  /** The JSON envelope of a catalog search. */
  datatype ApiResponse = ApiResponse(items: Option<seq<BookItem>>, totalItems: Option<int>)

  /** `searchRemoteBooks`: `fetched` is what the HTTP client produced, None when the request or
      the decoding threw, which the client turns into an empty response; missing items are empty. */
  function SearchRemoteBooks(fetched: Option<ApiResponse>): (r: seq<BookItem>)
    ensures fetched.None? ==> r == []
    ensures fetched.Some? && fetched.value.items.Some? ==> r == fetched.value.items.value
    ensures fetched.Some? && fetched.value.items.None? ==> r == []
  {
    var response := if fetched.Some? then fetched.value else ApiResponse(Some([]), Some(0));
    response.items.GetOr([])
  }

  function Gids(bs: seq<Book>): set<string> {
    set b | b in bs :: b.gid
  }

  /** The rows to keep when the book `id` is deleted. */
  function WithoutGid(id: string): Book -> bool {
    (b: Book) => b.gid != id
  }

  /** The rows to keep when every book in `ids` is deleted. */
  function WithoutGids(ids: set<string>): Book -> bool {
    (b: Book) => b.gid !in ids
  }

  /** Swift's `IndexSet`: distinct offsets, visited in increasing order. */
  predicate IsIndexSet(offsets: seq<int>, n: int) {
    (forall k :: 0 <= k < |offsets| ==> 0 <= offsets[k] < n) &&
    (forall j, k :: 0 <= j < k < |offsets| ==> offsets[j] < offsets[k])
  }

  /** The `gid`s of the rows at `offsets` of a list on screen. */
  function GidsAt(bs: seq<Book>, offsets: seq<int>): (r: set<string>)
    requires forall k :: 0 <= k < |offsets| ==> 0 <= offsets[k] < |bs|
  {
    set k | 0 <= k < |offsets| :: bs[offsets[k]].gid
  }

  /** One more offset adds the `gid` found there. */
  lemma GidsAtExtend(bs: seq<Book>, offsets: seq<int>, k: int)
    requires IsIndexSet(offsets, |bs|) && 0 <= k < |offsets|
    ensures GidsAt(bs, offsets[..k + 1]) == GidsAt(bs, offsets[..k]) + {bs[offsets[k]].gid}
  {
    assert offsets[..k + 1] == offsets[..k] + [offsets[k]];
  }

  predicate UniqueGids(bs: seq<Book>) {
    forall i, j :: 0 <= i < |bs| && 0 <= j < |bs| && bs[i].gid == bs[j].gid ==> i == j
  }

  function ShelfIds(cs: seq<Category>): set<int> {
    set c | c in cs :: c.id
  }

  predicate UniqueShelfIds(cs: seq<Category>) {
    forall i, j :: 0 <= i < |cs| && 0 <= j < |cs| && cs[i].id == cs[j].id ==> i == j
  }

  lemma {:induction false} FilterKeepsUnique(bs: seq<Book>, p: Book -> bool)
    requires UniqueGids(bs)
    ensures UniqueGids(Filter(bs, p))
    decreases |bs|
  {
    if bs != [] {
      assert UniqueGids(bs[1..]) by {
        forall i, j | 0 <= i < |bs[1..]| && 0 <= j < |bs[1..]| && bs[1..][i].gid == bs[1..][j].gid ensures i == j {
          assert bs[i + 1].gid == bs[j + 1].gid;
        }
      }
      FilterKeepsUnique(bs[1..], p);
      var rest := Filter(bs[1..], p);
      if p(bs[0]) {
        forall x | x in rest ensures x.gid != bs[0].gid {
          var k :| 0 <= k < |bs[1..]| && bs[1..][k] == x;
          assert bs[k + 1] == x;
        }
        ConsUnique(bs[0], rest);
      }
      assert Filter(bs, p) == (if p(bs[0]) then [bs[0]] else []) + rest;
    }
  }

  lemma ConsUnique(b: Book, rest: seq<Book>)
    requires UniqueGids(rest) && forall x :: x in rest ==> x.gid != b.gid
    ensures UniqueGids([b] + rest)
  {
    var r := [b] + rest;
    forall i, j | 0 <= i < |r| && 0 <= j < |r| && r[i].gid == r[j].gid ensures i == j {
      if i > 0 && j > 0 {
        assert r[i] == rest[i - 1] && r[j] == rest[j - 1];
      }
    }
  }

  /** `insertBook` as an upsert keyed by `gid`: an existing row is overwritten in place, a new one
      is appended. */
  function Upsert(bs: seq<Book>, b: Book): (r: seq<Book>)
    requires UniqueGids(bs)
    ensures UniqueGids(r) && b in r && Gids(r) == Gids(bs) + {b.gid}
    ensures forall x :: x in r <==> x == b || (x in bs && x.gid != b.gid)
  {
    if b.gid in Gids(bs) then
      var r := seq(|bs|, i requires 0 <= i < |bs| => if bs[i].gid == b.gid then b else bs[i]);
      var k :| k in bs && k.gid == b.gid;
      assert b in r by { var i :| 0 <= i < |bs| && bs[i] == k; assert r[i] == b; }
      assert forall x :: x in bs && x.gid != b.gid ==> x in r by {
        forall x | x in bs && x.gid != b.gid ensures x in r {
          var i :| 0 <= i < |bs| && bs[i] == x;
          assert r[i] == x;
        }
      }
      r
    else
      bs + [b]
  }

  /** A partial update of the rows with the given `gid`. */
  function UpdateWhere(bs: seq<Book>, id: string, f: Book -> Book): (r: seq<Book>)
    ensures |r| == |bs|
    ensures forall i :: 0 <= i < |bs| ==> r[i] == if bs[i].gid == id then f(bs[i]) else bs[i]
  {
    seq(|bs|, i requires 0 <= i < |bs| => if bs[i].gid == id then f(bs[i]) else bs[i])
  }

  /** `getBooksInShelf`: the members of the shelf, assumed in store order. */
  function InShelf(bs: seq<Book>, members: set<Membership>, shelfId: int): (r: seq<Book>)
    ensures forall b :: b in r <==> b in bs && Membership(b.gid, shelfId) in members
  {
    Filter(bs, (b: Book) => Membership(b.gid, shelfId) in members)
  }

  class BookRepository {
    var books: seq<Book>
    var shelves: seq<Category>
    var members: set<Membership>
    var nextShelfId: int

    /** Keys are unique and every membership row references an existing book and shelf
        (the foreign keys with cascading deletes). */
    ghost predicate Valid()
      reads this
    {
      && UniqueGids(books)
      && UniqueShelfIds(shelves)
      && (forall m :: m in members ==> m.bookId in Gids(books) && m.shelfId in ShelfIds(shelves))
      && (forall c :: c in shelves ==> c.id < nextShelfId)
    }

    constructor ()
      ensures Valid() && books == [] && shelves == [] && members == {}
    {
      books, shelves, members, nextShelfId := [], [], {}, 1;
    }

    method GetAllBooks() returns (r: seq<Book>)
      ensures r == books
    {
      r := books;
    }

    method InsertBook(b: Book)
      requires Valid()
      modifies this
      ensures Valid()
      ensures books == Upsert(old(books), b)
      ensures shelves == old(shelves) && members == old(members) && nextShelfId == old(nextShelfId)
    {
      books := Upsert(books, b);
    }

    /** Removes the book and, by cascade, its memberships; a missing id is a no-op. */
    method DeleteBookById(id: string)
      requires Valid()
      modifies this
      ensures Valid()
      ensures books == Filter(old(books), WithoutGid(id))
      ensures members == set m | m in old(members) && m.bookId != id
      ensures shelves == old(shelves) && nextShelfId == old(nextShelfId)
    {
      FilterKeepsUnique(books, WithoutGid(id));
      books := Filter(books, WithoutGid(id));
      members := set m | m in members && m.bookId != id;
    }

    /** Sets exactly status, start and end of the book; rating and notes are untouched. */
    method UpdateBookStatus(id: string, status: string, startDate: Option<string>, endDate: Option<string>)
      requires Valid()
      modifies this
      ensures Valid()
      ensures books == UpdateWhere(old(books), id,
                                   (b: Book) => b.(status := Some(status), startDate := startDate, endDate := endDate))
      ensures shelves == old(shelves) && members == old(members) && nextShelfId == old(nextShelfId)
    {
      var f := (b: Book) => b.(status := Some(status), startDate := startDate, endDate := endDate);
      var r := UpdateWhere(books, id, f);
      assert Gids(r) == Gids(books) by {
        forall g | g in Gids(books) ensures g in Gids(r) {
          var x :| x in books && x.gid == g;
          var i :| 0 <= i < |books| && books[i] == x;
          assert r[i].gid == g;
        }
      }
      books := r;
    }

    /** Sets only the rating of the book. */
    method UpdateBookRating(id: string, rating: int)
      requires Valid()
      modifies this
      ensures Valid()
      ensures books == UpdateWhere(old(books), id, (b: Book) => b.(rating := Some(rating)))
      ensures shelves == old(shelves) && members == old(members) && nextShelfId == old(nextShelfId)
    {
      var r := UpdateWhere(books, id, (b: Book) => b.(rating := Some(rating)));
      assert Gids(r) == Gids(books) by {
        forall g | g in Gids(books) ensures g in Gids(r) {
          var x :| x in books && x.gid == g;
          var i :| 0 <= i < |books| && books[i] == x;
          assert r[i].gid == g;
        }
      }
      books := r;
    }

    method GetAllShelves() returns (r: seq<Category>)
      ensures r == shelves
    {
      r := shelves;
    }

    /** Appends a shelf under a fresh id. */
    method CreateShelf(name: string, description: string, colorHex: int) returns (c: Category)
      requires Valid()
      modifies this
      ensures Valid()
      ensures c == Category(old(nextShelfId), name, Some(description), colorHex)
      ensures c.id !in ShelfIds(old(shelves))
      ensures shelves == old(shelves) + [c]
      ensures books == old(books) && members == old(members)
    {
      c := Category(nextShelfId, name, Some(description), colorHex);
      assert c.id !in ShelfIds(shelves);
      shelves := shelves + [c];
      nextShelfId := nextShelfId + 1;
    }

    /** Removes the shelf and its memberships; no book is deleted. */
    method DeleteShelf(id: int)
      requires Valid()
      modifies this
      ensures Valid()
      ensures shelves == Filter(old(shelves), (c: Category) => c.id != id)
      ensures members == set m | m in old(members) && m.shelfId != id
      ensures books == old(books) && nextShelfId == old(nextShelfId)
    {
      var r := Filter(shelves, (c: Category) => c.id != id);
      assert UniqueShelfIds(r) by { ShelfFilterKeepsUnique(shelves, id); }
      shelves := r;
      members := set m | m in members && m.shelfId != id;
    }

    method GetBooksInShelf(shelfId: int) returns (r: seq<Book>)
      ensures r == InShelf(books, members, shelfId)
    {
      var m := members;
      r := Filter(books, (b: Book) => Membership(b.gid, shelfId) in m);
    }

    method CountBooksInShelf(shelfId: int) returns (n: int)
      ensures n == |InShelf(books, members, shelfId)|
    {
      var r := GetBooksInShelf(shelfId);
      n := |r|;
    }

    /** Adds the membership; adding an existing one, or one naming a missing book or shelf,
        changes nothing. */
    method AddBookToShelf(bookId: string, shelfId: int)
      requires Valid()
      modifies this
      ensures Valid()
      ensures members == if bookId in Gids(books) && shelfId in ShelfIds(shelves)
                         then old(members) + {Membership(bookId, shelfId)} else old(members)
      ensures books == old(books) && shelves == old(shelves) && nextShelfId == old(nextShelfId)
    {
      if bookId in Gids(books) && shelfId in ShelfIds(shelves) {
        members := members + {Membership(bookId, shelfId)};
      }
    }

    method RemoveBookFromShelf(bookId: string, shelfId: int)
      requires Valid()
      modifies this
      ensures Valid()
      ensures members == old(members) - {Membership(bookId, shelfId)}
      ensures books == old(books) && shelves == old(shelves) && nextShelfId == old(nextShelfId)
    {
      members := members - {Membership(bookId, shelfId)};
    }
  }

  lemma {:induction false} ShelfFilterKeepsUnique(cs: seq<Category>, id: int)
    requires UniqueShelfIds(cs)
    ensures UniqueShelfIds(Filter(cs, (c: Category) => c.id != id))
    decreases |cs|
  {
    var p := (c: Category) => c.id != id;
    if cs != [] {
      ShelfFilterKeepsUnique(cs[1..], id);
      var rest := Filter(cs[1..], p);
      assert Filter(cs, p) == (if p(cs[0]) then [cs[0]] else []) + rest;
      if p(cs[0]) {
        var r := [cs[0]] + rest;
        forall x | x in rest ensures x.id != cs[0].id {
          var k :| 0 <= k < |cs[1..]| && cs[1..][k] == x;
          assert cs[k + 1] == x;
        }
        forall i, j | 0 <= i < |r| && 0 <= j < |r| && r[i].id == r[j].id ensures i == j {
          if i > 0 && j > 0 {
            assert r[i] == rest[i - 1] && r[j] == rest[j - 1];
          }
        }
      }
    }
  }
}
