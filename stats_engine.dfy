/** The statistics both `StatsViewModel`s compute from the stored books, as functions of the
    book list, with the properties that give them their meaning. */
module StatsEngine {
  import opened Wrappers
  import opened Seqs
  import opened Text
  import opened Dates
  import opened Entities
  import Mappers

  // ---------------------------------------------------------------------------
  // Reading status
  // ---------------------------------------------------------------------------

  predicate IsCompleted(b: Book) { b.status == Some(COMPLETED) }
  predicate IsReading(b: Book) { b.status == Some(IN_PROGRESS) }
  /** A row without a status counts as pending. */
  predicate IsPendingOrNew(b: Book) { b.status == Some(PENDING) || b.status.None? }
  predicate HasOtherStatus(b: Book) {
    b.status.Some? && b.status.value != COMPLETED && b.status.value != IN_PROGRESS && b.status.value != PENDING
  }

  function Completed(all: seq<Book>): (r: seq<Book>)
    ensures forall b :: b in r <==> b in all && IsCompleted(b)
    ensures IsSubsequence(r, all)
  {
    FilterIsSubsequence(all, IsCompleted);
    Filter(all, IsCompleted)
  }

  /** The read, reading and pending counters, plus the rows with any other status string,
      account for every book exactly once. */
  lemma {:induction false} StatusPartition(all: seq<Book>)
    ensures |all| == Count(all, IsCompleted) + Count(all, IsReading) + Count(all, IsPendingOrNew)
                     + Count(all, HasOtherStatus)
    decreases |all|
  {
    if all != [] {
      StatusPartition(all[1..]);
      assert Filter(all, IsCompleted) == (if IsCompleted(all[0]) then [all[0]] else []) + Filter(all[1..], IsCompleted);
      assert Filter(all, IsReading) == (if IsReading(all[0]) then [all[0]] else []) + Filter(all[1..], IsReading);
      assert Filter(all, IsPendingOrNew) == (if IsPendingOrNew(all[0]) then [all[0]] else []) + Filter(all[1..], IsPendingOrNew);
      assert Filter(all, HasOtherStatus) == (if HasOtherStatus(all[0]) then [all[0]] else []) + Filter(all[1..], HasOtherStatus);
    }
  }

  // ---------------------------------------------------------------------------
  // Pages
  // ---------------------------------------------------------------------------

  /** Pages of the given books, a missing page count read as 0. */
  function TotalPages(bs: seq<Book>): int {
    SumOf(bs, PagesOrZero)
  }

  /** Books without a page count contribute nothing. */
  lemma TotalPagesIgnoresUnknown(bs: seq<Book>)
    ensures TotalPages(bs) == TotalPages(Filter(bs, (b: Book) => b.pageCount.Some?))
  {
    SumOfFilterZero(bs, PagesOrZero, (b: Book) => b.pageCount.Some?);
  }

  // ---------------------------------------------------------------------------
  // Average rating
  // ---------------------------------------------------------------------------

  predicate IsRated(b: Book) { b.rating.GetOr(0) > 0 }
  function RatingOf(b: Book): int { b.rating.GetOr(0) }

  function Rated(bs: seq<Book>): (r: seq<Book>)
    ensures forall b :: b in r <==> b in bs && IsRated(b)
  {
    Filter(bs, IsRated)
  }

  /** The average of the positive ratings, times ten and rounded half up: the one-decimal value
      shown, as a whole number of tenths; 0 when nothing is rated. */
  function AverageRatingTenths(bs: seq<Book>): (r: int)
    ensures Rated(bs) == [] ==> r == 0
    ensures Rated(bs) != [] ==>
              -|Rated(bs)| <= 2 * (10 * SumOf(Rated(bs), RatingOf) - |Rated(bs)| * r) < |Rated(bs)|
  {
    var rated := Rated(bs);
    var n := |rated|;
    if n == 0 then 0
    else
      var s := SumOf(rated, RatingOf);
      var q := (20 * s + n) / (2 * n);
      RoundHalfUp(s, n);
      q
  }

  /** `10 * s / n` rounded half up is within half a unit of it. */
  lemma RoundHalfUp(s: int, n: int)
    requires n > 0
    ensures var q := (20 * s + n) / (2 * n);
            -n <= 2 * (10 * s - n * q) < n
  {
    var q := (20 * s + n) / (2 * n);
    DivBounds(20 * s + n, 2 * n);
    assert q * (2 * n) == 2 * (n * q);
  }

  lemma DivBounds(t: int, d: int)
    requires d > 0
    ensures t / d * d <= t < t / d * d + d
  {
  }

  /** Rounding the mean of `n` values between `lo` and `hi` keeps it between them. */
  lemma RoundedMeanBetween(n: int, sum: int, r: int, lo: int, hi: int)
    requires n > 0 && n * lo <= sum <= n * hi
    requires -n <= 2 * (10 * sum - n * r) < n
    ensures 10 * lo <= r <= 10 * hi
  {
    if r > 10 * hi {
      MulMono(n, 10 * hi + 1, r);
    }
    if r < 10 * lo {
      MulMono(n, r, 10 * lo - 1);
    }
  }

  lemma MulMono(c: int, a: int, b: int)
    requires c > 0 && a <= b
    ensures c * a <= c * b
  {
    assert c * b - c * a == c * (b - a);
  }

  /** The average lies between ten times the smallest and the largest positive rating. */
  lemma AverageRatingBounds(bs: seq<Book>, lo: int, hi: int)
    requires Rated(bs) != []
    requires forall b :: b in Rated(bs) ==> lo <= RatingOf(b) <= hi
    ensures 10 * lo <= AverageRatingTenths(bs) <= 10 * hi
  {
    var rated := Rated(bs);
    SumOfBounds(rated, RatingOf, lo, hi);
    RoundedMeanBetween(|rated|, SumOf(rated, RatingOf), AverageRatingTenths(bs), lo, hi);
  }

  lemma AverageRatingExamples()
    ensures AverageRatingTenths([Rating(8), Rating(9), Rating(10)]) == 90
  {
    AllRated3(Rating(8), Rating(9), Rating(10));
  }

  /** 11/3 = 3.67 is shown as 3.7. */
  lemma AverageRoundsToNearest()
    ensures AverageRatingTenths([Rating(3), Rating(4), Rating(4)]) == 37
  {
    AllRated3(Rating(3), Rating(4), Rating(4));
  }

  /** A mean of exactly 4.5 is shown as 4.5, and the unrated book does not count. */
  lemma AverageSkipsZeroRating()
    ensures AverageRatingTenths([Rating(4), Rating(5), Rating(0)]) == 45
  {
    AllRated3(Rating(4), Rating(5), Rating(0));
  }

  /** Ratings of 0 and missing ratings are not averaged. */
  lemma UnratedIgnored()
    ensures AverageRatingTenths([Rating(0), Unrated()]) == 0
  {
    assert !IsRated(Rating(0)) && !IsRated(Unrated());
    assert Rated([Rating(0), Unrated()]) == [] by {
      assert [Rating(0), Unrated()][1..] == [Unrated()];
    }
  }

  /** The first two books rated, the third rated or not. */
  lemma AllRated3(a: Book, b: Book, c: Book)
    requires IsRated(a) && IsRated(b)
    ensures Rated([a, b, c]) == if IsRated(c) then [a, b, c] else [a, b]
    ensures SumOf([a, b, c], RatingOf) == RatingOf(a) + RatingOf(b) + RatingOf(c)
    ensures SumOf([a, b], RatingOf) == RatingOf(a) + RatingOf(b)
  {
    var f := RatingOf;
    assert [a, b, c][1..] == [b, c];
    assert [b, c][1..] == [c];
    assert [c][1..] == [];
    assert Filter([c], IsRated) == if IsRated(c) then [c] else [];
    assert Filter([b, c], IsRated) == [b] + Filter([c], IsRated);
    assert Filter([a, b, c], IsRated) == [a] + Filter([b, c], IsRated);
    assert SumOf([a], f) == f(a) by { assert [a][..0] == []; }
    assert SumOf([a, b], f) == f(a) + f(b) by { assert [a, b][..1] == [a]; }
    assert [a, b, c][..2] == [a, b];
  }

  /** A completed book with only a rating set, for the examples. */
  function Rating(n: int): (b: Book)
    ensures b.rating == Some(n) && IsCompleted(b)
  {
    Book("g", "t", None, None, None, None, None, None, None, Some(COMPLETED), None, None, Some(n), None)
  }

  function Unrated(): (b: Book)
    ensures b.rating.None? && IsCompleted(b)
  {
    Book("g", "t", None, None, None, None, None, None, None, Some(COMPLETED), None, None, None, None)
  }

  // ---------------------------------------------------------------------------
  // Books finished in a year
  // ---------------------------------------------------------------------------

  predicate EndsInYear(b: Book, year: int) {
    b.endDate.Some? && StartsWith(b.endDate.value, IntToString(year))
  }

  /** Completed books whose end date starts with the decimal year. */
  function FinishedIn(bs: seq<Book>, year: int): nat {
    Count(bs, (b: Book) => EndsInYear(b, year))
  }

  /** For four-digit years and well-formed end dates the prefix test is the calendar test. */
  lemma FinishedInMeansYear(bs: seq<Book>, year: nat)
    requires 1000 <= year <= 9999
    requires forall b :: b in bs && b.endDate.Some? ==> ParseIsoDate(b.endDate.value).Some?
    ensures FinishedIn(bs, year) ==
            Count(bs, (b: Book) => b.endDate.Some? && ParseIsoDate(b.endDate.value).Some?
                                   && ParseIsoDate(b.endDate.value).value.year == year)
  {
    var q := (b: Book) => b.endDate.Some? && ParseIsoDate(b.endDate.value).Some?
                          && ParseIsoDate(b.endDate.value).value.year == year;
    forall i | 0 <= i < |bs| ensures EndsInYear(bs[i], year) == q(bs[i]) {
      if bs[i].endDate.Some? {
        YearPrefixMeansSameYear(bs[i].endDate.value, year);
      }
    }
    FilterExt(bs, (b: Book) => EndsInYear(b, year), q);
  }

  // ---------------------------------------------------------------------------
  // Favourite author
  // ---------------------------------------------------------------------------

  function AuthorsOf(b: Book): seq<string> {
    if b.authors.Some? then Split(b.authors.value, Mappers.AUTHOR_SEPARATOR) else []
  }

  /** A catalog result with an empty author list is stored with the empty author string, which
      splits into one empty name: the statistics count "" as an author of that book. */
  lemma EmptyAuthorListCountsOneName(item: BookItem)
    requires item.volumeInfo.authors == Some([])
    ensures Mappers.ToDatabaseEntity(item).authors == Some("")
    ensures AuthorsOf(Mappers.ToDatabaseEntity(item)) == [""]
  {
    assert Mappers.JoinAuthors(Some([])) == Some("");
    assert Split("", Mappers.AUTHOR_SEPARATOR) == [""];
  }

  /** Every author name of every book, in book order. */
  function AuthorNames(bs: seq<Book>): seq<string>
    decreases |bs|
  {
    if bs == [] then [] else AuthorNames(bs[..|bs| - 1]) + AuthorsOf(bs[|bs| - 1])
  }

  function Occurrences(ns: seq<string>, x: string): (r: nat)
    ensures r == 0 <==> x !in ns
    decreases |ns|
  {
    if ns == [] then 0
    else
      assert ns == ns[..|ns| - 1] + [ns[|ns| - 1]];
      Occurrences(ns[..|ns| - 1], x) + (if ns[|ns| - 1] == x then 1 else 0)
  }

  /** The distinct names in order of first appearance: the key order of `groupingBy`. */
  function Distinct(ns: seq<string>): (r: seq<string>)
    ensures forall x :: x in r <==> x in ns
    decreases |ns|
  {
    if ns == [] then []
    else
      var init := ns[..|ns| - 1];
      assert ns == init + [ns[|ns| - 1]];
      Distinct(init) + (if ns[|ns| - 1] in init then [] else [ns[|ns| - 1]])
  }

  /** `groupingBy { it }.eachCount().maxByOrNull { it.value }`: the most frequent name, the
      first-appearing one among equals, with its count. */
  function MostFrequent(ns: seq<string>): Option<(string, int)> {
    match MaxByOrNull(Distinct(ns), (a: string) => Occurrences(ns, a))
    case None => None
    case Some(w) => Some((w, Occurrences(ns, w)))
  }

  lemma {:induction false} DistinctExtends(ns: seq<string>, m: nat)
    requires m <= |ns|
    ensures Distinct(ns[..m]) <= Distinct(ns)
    decreases |ns| - m
  {
    if m < |ns| {
      var init := ns[..|ns| - 1];
      assert init[..m] == ns[..m];
      DistinctExtends(init, m);
      assert ns[..|ns|] == ns;
    } else {
      assert ns[..m] == ns;
    }
  }

  /** The favourite author has the largest count, the count is its true number of
      occurrences, and every name met before its first occurrence has a smaller count. */
  lemma MostFrequentSpec(ns: seq<string>)
    ensures MostFrequent(ns).None? <==> ns == []
    ensures MostFrequent(ns).Some? ==>
              var (w, c) := MostFrequent(ns).value;
              && w in ns
              && c == Occurrences(ns, w)
              && (forall x :: x in ns ==> Occurrences(ns, x) <= c)
              && (forall j :: 0 <= j < IndexOf(ns, w) ==> Occurrences(ns, ns[j]) < c)
  {
    var d := Distinct(ns);
    var key := (a: string) => Occurrences(ns, a);
    if ns != [] {
      assert ns[0] in d;
      var k := ArgMaxFirst(d, key);
      var w := d[k];
      assert MostFrequent(ns) == Some((w, Occurrences(ns, w)));
      forall x | x in ns ensures Occurrences(ns, x) <= Occurrences(ns, w) {
        var i :| 0 <= i < |d| && d[i] == x;
        assert key(d[i]) <= key(d[k]);
      }
      forall j | 0 <= j < IndexOf(ns, w) ensures Occurrences(ns, ns[j]) < Occurrences(ns, w) {
        assert w !in ns[..j + 1];
        var p := Distinct(ns[..j + 1]);
        DistinctExtends(ns, j + 1);
        assert ns[j] in ns[..j + 1];
        var i :| 0 <= i < |p| && p[i] == ns[j];
        assert d[i] == ns[j];
        assert k >= |p|;
        assert key(d[i]) < key(d[k]);
      }
    } else {
      assert d == [];
    }
  }

  /** The count map Swift's loop builds with `counts[author, default: 0] += 1`. */
  function Tally(ns: seq<string>): map<string, int>
    decreases |ns|
  {
    if ns == [] then map[]
    else
      var m := Tally(ns[..|ns| - 1]);
      var x := ns[|ns| - 1];
      m[x := (if x in m then m[x] else 0) + 1]
  }

  lemma AuthorNamesStep(bs: seq<Book>, i: nat)
    requires i < |bs|
    ensures AuthorNames(bs[..i + 1]) == AuthorNames(bs[..i]) + AuthorsOf(bs[i])
  {
    assert bs[..i + 1][..i] == bs[..i];
  }

  /** Counting one more name updates its entry of the tally. */
  lemma TallyStep(ns: seq<string>, x: string)
    ensures Tally(ns + [x]) == Tally(ns)[x := (if x in Tally(ns) then Tally(ns)[x] else 0) + 1]
  {
    assert (ns + [x])[..|ns|] == ns;
  }

  lemma {:induction false} TallyCounts(ns: seq<string>)
    ensures forall x :: x in Tally(ns) <==> x in ns
    ensures forall x :: x in Tally(ns) ==> Tally(ns)[x] == Occurrences(ns, x)
    decreases |ns|
  {
    if ns != [] {
      var init := ns[..|ns| - 1];
      TallyCounts(init);
      assert ns == init + [ns[|ns| - 1]];
    }
  }

  lemma TallyEmpty(ns: seq<string>)
    ensures Tally(ns) == map[] <==> ns == []
  {
    TallyCounts(ns);
    if ns != [] {
      assert ns[0] in Tally(ns);
    }
  }

  /** A non-empty tally has a key with the largest count: Android's favourite. */
  lemma TallyHasMaximum(ns: seq<string>)
    requires ns != []
    ensures exists k :: k in Tally(ns) && forall y :: y in Tally(ns) ==> Tally(ns)[y] <= Tally(ns)[k]
  {
    TallyCounts(ns);
    MostFrequentSpec(ns);
    var w := MostFrequent(ns).value.0;
    assert w in Tally(ns);
  }

  /** Any key of the tally with the largest count is a most frequent name, with the count
      Android reports. */
  lemma TallyMaximumIsTop(ns: seq<string>, k: string)
    requires k in Tally(ns) && forall y :: y in Tally(ns) ==> Tally(ns)[y] <= Tally(ns)[k]
    ensures ns != [] && k in ns && Tally(ns)[k] == Occurrences(ns, k)
    ensures forall x :: x in ns ==> Occurrences(ns, x) <= Tally(ns)[k]
    ensures Tally(ns)[k] == MostFrequent(ns).value.1
  {
    TallyCounts(ns);
    MostFrequentSpec(ns);
    var w := MostFrequent(ns).value.0;
    assert w in Tally(ns);
    forall x | x in ns ensures Occurrences(ns, x) <= Tally(ns)[k] {
      assert x in Tally(ns);
    }
  }

  /** Android's favourite author: none when nothing is completed or no completed book has
      authors. */
  function TopAuthor(completed: seq<Book>): Option<(string, int)> {
    if completed == [] then None else MostFrequent(AuthorNames(completed))
  }

  /** Occurrences over a concatenation. */
  lemma {:induction false} OccurrencesAppend(a: seq<string>, b: seq<string>, x: string)
    ensures Occurrences(a + b, x) == Occurrences(a, x) + Occurrences(b, x)
    decreases |b|
  {
    if b == [] {
      assert a + b == a;
    } else {
      var b' := b[..|b| - 1];
      OccurrencesAppend(a, b', x);
      assert (a + b)[..|a + b| - 1] == a + b';
    }
  }

  lemma Occurrences1(y: string, x: string)
    ensures Occurrences([y], x) == if y == x then 1 else 0
  {
    assert [y][..0] == [];
  }

  /** Three completed books by "x, y", "y" and "y, z": `y` is the favourite, with 3 books. */
  lemma TopAuthorExample(x: string, y: string, z: string)
    requires x != y && y != z && x != z
    requires !Contains(x, ", ") && !Contains(y, ", ") && !Contains(z, ", ")
    ensures TopAuthor([WrittenBy(x + ", " + y), WrittenBy(y), WrittenBy(y + ", " + z)]) == Some((y, 3))
  {
    ExampleNames(x, y, z);
    ExampleFavourite(x, y, z);
  }

  lemma ExampleNames(x: string, y: string, z: string)
    requires !Contains(x, ", ") && !Contains(y, ", ") && !Contains(z, ", ")
    ensures AuthorNames([WrittenBy(x + ", " + y), WrittenBy(y), WrittenBy(y + ", " + z)]) == [x, y, y, y, z]
  {
    var a, b, c := WrittenBy(x + ", " + y), WrittenBy(y), WrittenBy(y + ", " + z);
    SplitJoinNames([x, y]);
    SplitJoinNames([y]);
    SplitJoinNames([y, z]);
    assert Join([x, y], ", ") == x + ", " + y;
    assert Join([y, z], ", ") == y + ", " + z;
    assert AuthorsOf(a) == [x, y];
    assert AuthorsOf(b) == [y];
    assert AuthorsOf(c) == [y, z];
    assert AuthorNames([a]) == [x, y] by { assert [a][..0] == []; }
    assert AuthorNames([a, b]) == [x, y, y] by { assert [a, b][..1] == [a]; }
    assert [a, b, c][..2] == [a, b];
  }

  lemma ExampleFavourite(x: string, y: string, z: string)
    requires x != y && y != z && x != z
    ensures MostFrequent([x, y, y, y, z]) == Some((y, 3))
  {
    var ns := [x, y, y, y, z];
    assert ns == [x] + [y] + [y] + [y] + [z];
    forall v ensures Occurrences(ns, v) == (if v == x then 1 else 0) + (if v == y then 3 else 0)
                                          + (if v == z then 1 else 0) {
      OccurrencesAppend([x] + [y] + [y] + [y], [z], v);
      OccurrencesAppend([x] + [y] + [y], [y], v);
      OccurrencesAppend([x] + [y], [y], v);
      OccurrencesAppend([x], [y], v);
      Occurrences1(x, v);
      Occurrences1(y, v);
      Occurrences1(z, v);
    }
    MostFrequentSpec(ns);
  }

  /** Between two names with the same count, the one named first wins. */
  lemma TieGoesToFirstNamed(a: string, b: string)
    requires a != b
    ensures MostFrequent([a, b, b, a]) == Some((a, 2))
  {
    var ns := [a, b, b, a];
    assert ns == [a] + [b] + [b] + [a];
    forall x ensures Occurrences(ns, x) == (if x == a then 2 else 0) + (if x == b then 2 else 0) {
      OccurrencesAppend([a] + [b] + [b], [a], x);
      OccurrencesAppend([a] + [b], [b], x);
      OccurrencesAppend([a], [b], x);
      Occurrences1(a, x);
      Occurrences1(b, x);
    }
    FirstOfEquals(ns, a, b);
  }

  lemma FirstOfEquals(ns: seq<string>, a: string, b: string)
    requires |ns| > 0 && ns[0] == a
    requires forall i :: 0 <= i < |ns| ==> ns[i] == a || ns[i] == b
    requires Occurrences(ns, a) == Occurrences(ns, b)
    ensures MostFrequent(ns) == Some((a, Occurrences(ns, a)))
  {
    MostFrequentSpec(ns);
    var w := MostFrequent(ns).value.0;
    var i :| 0 <= i < |ns| && ns[i] == w;
  }

  function WrittenBy(authors: string): (b: Book)
    ensures b.authors == Some(authors) && IsCompleted(b)
  {
    Book("g", "t", None, Some(authors), None, None, None, None, None, Some(COMPLETED), None, None, None, None)
  }

  // ---------------------------------------------------------------------------
  // Longest and shortest book
  // ---------------------------------------------------------------------------

  /** `maxByOrNull { it.pageCount ?: 0 }`, also Swift's `max(by:)` on the same key. */
  function Longest(bs: seq<Book>): Option<Book> {
    MaxByOrNull(bs, PagesOrZero)
  }

  /** The shortest book with a positive page count. */
  function Shortest(bs: seq<Book>): Option<Book> {
    MinByOrNull(Filter(bs, (b: Book) => PagesOrZero(b) > 0), PagesOrZero)
  }

  /** The longest book is a book of the list with the most pages, the first one among equals. */
  lemma LongestSpec(bs: seq<Book>)
    ensures Longest(bs).None? <==> bs == []
    ensures Longest(bs).Some? ==>
              && Longest(bs).value in bs
              && (forall b :: b in bs ==> PagesOrZero(b) <= PagesOrZero(Longest(bs).value))
              && (forall j :: 0 <= j < IndexOf(bs, Longest(bs).value) ==>
                                PagesOrZero(bs[j]) < PagesOrZero(Longest(bs).value))
  {
    if bs != [] {
      var k := ArgMaxFirst(bs, PagesOrZero);
      assert IndexOf(bs, bs[k]) <= k;
    }
  }

  /** The shortest book has a positive page count and no book with a positive count is shorter,
      the first one among equals; there is none exactly when no book has a positive page count. */
  lemma ShortestSpec(bs: seq<Book>)
    ensures Shortest(bs).None? <==> forall b :: b in bs ==> PagesOrZero(b) <= 0
    ensures Shortest(bs).Some? ==>
              && Shortest(bs).value in bs
              && PagesOrZero(Shortest(bs).value) > 0
              && (forall b :: b in bs && PagesOrZero(b) > 0 ==> PagesOrZero(Shortest(bs).value) <= PagesOrZero(b))
              && (forall j :: 0 <= j < IndexOf(bs, Shortest(bs).value) && PagesOrZero(bs[j]) > 0 ==>
                                PagesOrZero(Shortest(bs).value) < PagesOrZero(bs[j]))
  {
    var p := (b: Book) => PagesOrZero(b) > 0;
    var f := Filter(bs, p);
    if f != [] {
      var k := ArgMinFirst(f, PagesOrZero);
      forall b | b in bs && PagesOrZero(b) > 0 ensures PagesOrZero(f[k]) <= PagesOrZero(b) {
        var i :| 0 <= i < |f| && f[i] == b;
      }
      FirstMinOfFilter(bs, p, PagesOrZero, k);
    } else {
      forall b | b in bs ensures PagesOrZero(b) <= 0 {
        assert !(b in f);
      }
    }
  }

  // ---------------------------------------------------------------------------
  // Reading speed
  // ---------------------------------------------------------------------------

  predicate IsTimed(b: Book) { b.startDate.Some? && b.endDate.Some? }

  /** Days from start to end, when both dates are present and parse. */
  function Span(b: Book): (r: Option<int>)
    ensures r.Some? ==> IsTimed(b)
  {
    if IsTimed(b) then DaysBetween(b.startDate.value, b.endDate.value) else None
  }

  /** A book counted by the reading speed: dated, parsable, and not ending before it starts. */
  predicate Qualifies(b: Book) { Span(b).Some? && Span(b).value >= 0 }

  function SpanDays(b: Book): (r: int)
    ensures r >= 0
  {
    if Qualifies(b) then Span(b).value else 0
  }

  function SpanTotal(bs: seq<Book>): int { SumOf(bs, SpanDays) }
  function SpanCount(bs: seq<Book>): nat { Count(bs, Qualifies) }

  /** Whole days per book over the qualifying books, at least 1; 0 when none qualifies. */
  function AverageDays(bs: seq<Book>): int {
    var n := SpanCount(bs);
    if n > 0 then Max(1, SpanTotal(bs) / n) else 0
  }

  function Max(a: int, b: int): int { if a < b then b else a }

  lemma {:induction false} SpanTotalNonNegative(bs: seq<Book>)
    ensures SpanTotal(bs) >= 0
    decreases |bs|
  {
    if bs != [] { SpanTotalNonNegative(bs[..|bs| - 1]); }
  }

  lemma FloorDiv(t: int, n: int)
    requires t >= 0 && n > 0
    ensures t / n * n <= t < (t / n + 1) * n
  {
  }

  /** The floor of `t / n`, raised to 1 when it is 0. */
  lemma FloorAtLeastOne(t: int, n: int)
    requires t >= 0 && n > 0
    ensures var a := Max(1, t / n);
            && (a > 1 ==> a * n <= t < (a + 1) * n)
            && (a == 1 ==> t < 2 * n)
  {
    FloorDiv(t, n);
    var q := t / n;
    if q == 0 {
      assert t < n;
    }
  }

  /** The reading speed is 0 exactly when no book qualifies; otherwise it is the floor of the
      mean span, raised to 1 when that floor is 0. */
  lemma AverageDaysMeaning(bs: seq<Book>)
    ensures AverageDays(bs) == 0 <==> forall b :: b in bs ==> !Qualifies(b)
    ensures SpanCount(bs) > 0 ==>
              && AverageDays(bs) >= 1
              && (AverageDays(bs) > 1 ==> AverageDays(bs) * SpanCount(bs) <= SpanTotal(bs)
                                         < (AverageDays(bs) + 1) * SpanCount(bs))
              && (AverageDays(bs) == 1 ==> SpanTotal(bs) < 2 * SpanCount(bs))
  {
    var f := Filter(bs, Qualifies);
    if f == [] {
      forall b | b in bs ensures !Qualifies(b) {
        assert !(b in f);
      }
    } else {
      assert f[0] in bs && Qualifies(f[0]);
      SpanTotalNonNegative(bs);
      FloorAtLeastOne(SpanTotal(bs), SpanCount(bs));
    }
  }

  /** One more book extends the running total and count of a left-to-right loop. */
  lemma SpanStep(bs: seq<Book>, i: nat)
    requires i < |bs|
    ensures SpanTotal(bs[..i + 1]) == SpanTotal(bs[..i]) + SpanDays(bs[i])
    ensures SpanCount(bs[..i + 1]) == SpanCount(bs[..i]) + (if Qualifies(bs[i]) then 1 else 0)
  {
    assert bs[..i + 1][..i] == bs[..i];
    assert bs[..i + 1] == bs[..i] + [bs[i]];
    FilterAppend(bs[..i], [bs[i]], Qualifies);
    assert Filter([bs[i]], Qualifies) == (if Qualifies(bs[i]) then [bs[i]] else []) by {
      assert [bs[i]][1..] == [];
    }
  }

  /** The loop both platforms run over the completed books: for each book with two dates that
      parse, add its span when it is not negative. */
  method SumSpans(books: seq<Book>) returns (totalDays: int, count: int)
    ensures totalDays == SpanTotal(books) && count == SpanCount(books)
  {
    totalDays := 0;
    count := 0;
    var i := 0;
    while i < |books|
      invariant 0 <= i <= |books|
      invariant totalDays == SpanTotal(books[..i])
      invariant count == SpanCount(books[..i])
    {
      var book := books[i];
      if book.startDate.Some? && book.endDate.Some? {
        var days := DaysBetween(book.startDate.value, book.endDate.value);
        if days.Some? && days.value >= 0 {
          totalDays := totalDays + days.value;
          count := count + 1;
        }
      }
      SpanStep(books, i);
      i := i + 1;
    }
    assert books[..i] == books;
  }

  /** Android first keeps the books with both dates; that changes neither the total nor the
      count, so both platforms compute the same speed. */
  lemma TimedFilterIrrelevant(bs: seq<Book>)
    ensures AverageDays(Filter(bs, IsTimed)) == AverageDays(bs)
  {
    var t := Filter(bs, IsTimed);
    SumOfFilterZero(bs, SpanDays, IsTimed);
    assert SpanTotal(t) == SpanTotal(bs);
    FilterThen(bs, IsTimed, Qualifies, Qualifies);
    assert SpanCount(t) == SpanCount(bs);
  }

  /** Spans of 10 and 5 days average to 7; a book that ends before it starts and one with an
      unreadable date are not counted. */
  lemma AverageDaysExample()
    ensures AverageDays([Dated("2024-01-01", "2024-01-11"), Dated("2024-02-01", "2024-02-06"),
                         Dated("2024-03-05", "2024-03-01"), Dated("soon", "2024-01-01")]) == 7
  {
    ExampleSpans(Dated("2024-01-01", "2024-01-11"), Dated("2024-02-01", "2024-02-06"),
                 Dated("2024-03-05", "2024-03-01"), Dated("soon", "2024-01-01"));
    AverageOfFour(Dated("2024-01-01", "2024-01-11"), Dated("2024-02-01", "2024-02-06"),
                  Dated("2024-03-05", "2024-03-01"), Dated("soon", "2024-01-01"));
  }

  lemma ExampleSpans(a: Book, b: Book, c: Book, d: Book)
    requires a == Dated("2024-01-01", "2024-01-11") && b == Dated("2024-02-01", "2024-02-06")
    requires c == Dated("2024-03-05", "2024-03-01") && d == Dated("soon", "2024-01-01")
    ensures Span(a) == Some(10) && Span(b) == Some(5)
    ensures Span(c).Some? && Span(c).value < 0 && Span(d).None?
  {
    JanuarySpan();
    FebruarySpan();
    BackwardsMarchSpan();
    assert ParseIsoDate("soon").None?;
  }

  lemma AverageOfFour(a: Book, b: Book, c: Book, d: Book)
    requires Span(a) == Some(10) && Span(b) == Some(5)
    requires Span(c).Some? && Span(c).value < 0 && Span(d).None?
    ensures AverageDays([a, b, c, d]) == 7
  {
    CountOfFour(a, b, c, d);
    TotalOfFour(a, b, c, d);
  }

  lemma CountOfFour(a: Book, b: Book, c: Book, d: Book)
    requires Qualifies(a) && Qualifies(b) && !Qualifies(c) && !Qualifies(d)
    ensures SpanCount([a, b, c, d]) == 2
  {
    var bs := [a, b, c, d];
    assert Filter([d], Qualifies) == [] by { assert [d][1..] == []; }
    assert Filter([c, d], Qualifies) == [] by { assert [c, d][1..] == [d]; }
    assert Filter([b, c, d], Qualifies) == [b] by { assert [b, c, d][1..] == [c, d]; }
    assert Filter(bs, Qualifies) == [a, b] by { assert bs[1..] == [b, c, d]; }
  }

  lemma TotalOfFour(a: Book, b: Book, c: Book, d: Book)
    requires SpanDays(a) == 10 && SpanDays(b) == 5 && SpanDays(c) == 0 && SpanDays(d) == 0
    ensures SpanTotal([a, b, c, d]) == 15
  {
    var bs := [a, b, c, d];
    assert SumOf([a], SpanDays) == 10 by { assert [a][..0] == []; }
    assert SumOf([a, b], SpanDays) == 15 by { assert [a, b][..1] == [a]; }
    assert SumOf([a, b, c], SpanDays) == 15 by { assert [a, b, c][..2] == [a, b]; }
    assert bs[..3] == [a, b, c];
  }

  function Dated(start: string, end: string): (b: Book)
    ensures b.startDate == Some(start) && b.endDate == Some(end) && IsCompleted(b)
  {
    Book("g", "t", None, None, None, None, None, None, None, Some(COMPLETED), Some(start), Some(end), None, None)
  }
}
