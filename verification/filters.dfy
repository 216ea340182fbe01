/** The "Apply Filters" block: genre, then author, then minimum rating, each
    an order-preserving row mask over the table. */
module Filters {
  import opened Seqs
  import opened Text
  import opened Catalogue

  /** The sidebar selections: the "Minimum Rating" radio and the two
      multiselects (empty = no constraint). */
  datatype Criteria = Criteria(minRating: int, genres: seq<string>, authors: seq<string>)

  /** The genre mask: a non-null `Genres List` that contains some selected
      genre as a substring of the raw text. */
  predicate GenreMatch(selected: seq<string>, genres: Option<string>)
    ensures GenreMatch(selected, genres) ==> genres.Some? && |selected| > 0
    ensures genres.Some? && (genres.value in selected || "" in selected) ==> GenreMatch(selected, genres)
  {
    genres.Some? && exists g :: g in selected && Contains(genres.value, g)
  }

  /** The rating mask: a null rating never compares greater or equal. */
  predicate MeetsFloor(b: Book, floor: int)
    ensures MeetsFloor(b, floor) ==> b.rating.Some?
    ensures b.rating.Some? ==> (MeetsFloor(b, floor) <==> floor <= b.rating.value.Floor)
  {
    b.rating.Some? && b.rating.value >= floor as real
  }

  function FilterGenres(rows: seq<Book>, selected: seq<string>): (r: seq<Book>)
    ensures IsSubsequence(r, rows)
    ensures |selected| == 0 ==> r == rows
    ensures |selected| > 0 ==> forall b :: b in r <==> b in rows && GenreMatch(selected, b.genres)
  {
    FilterIsSubsequence((b: Book) => GenreMatch(selected, b.genres), rows);
    SubsequenceReflexive(rows);
    if |selected| == 0 then rows else Filter((b: Book) => GenreMatch(selected, b.genres), rows)
  }

  function FilterAuthors(rows: seq<Book>, selected: seq<string>): (r: seq<Book>)
    ensures IsSubsequence(r, rows)
    ensures |selected| == 0 ==> r == rows
    ensures |selected| > 0 ==> forall b :: b in r <==> b in rows && b.author in selected
  {
    FilterIsSubsequence((b: Book) => b.author in selected, rows);
    SubsequenceReflexive(rows);
    if |selected| == 0 then rows else Filter((b: Book) => b.author in selected, rows)
  }

  function FilterRating(rows: seq<Book>, floor: int): (r: seq<Book>)
    ensures IsSubsequence(r, rows)
    ensures forall b :: b in r <==> b in rows && b.rating.Some? && b.rating.value >= floor as real
  {
    FilterIsSubsequence((b: Book) => MeetsFloor(b, floor), rows);
    Filter((b: Book) => MeetsFloor(b, floor), rows)
  }

  /** All three masks at once: what a surviving row satisfies. */
  predicate Passes(c: Criteria, b: Book)
  {
    (|c.genres| == 0 || GenreMatch(c.genres, b.genres)) &&
    (|c.authors| == 0 || b.author in c.authors) &&
    MeetsFloor(b, c.minRating)
  }

  /** The table after the three filters, applied in the page's order. */
  function ApplyFilters(rows: seq<Book>, c: Criteria): (r: seq<Book>)
    ensures IsSubsequence(r, rows)
    ensures forall b :: b in r <==> b in rows && Passes(c, b)
  {
    var g := FilterGenres(rows, c.genres);
    var a := FilterAuthors(g, c.authors);
    var r := FilterRating(a, c.minRating);
    SubsequenceTransitive(a, g, rows);
    SubsequenceTransitive(r, a, rows);
    r
  }

  /** The three passes keep exactly the rows a single pass over `Passes`
      keeps, in the same order and with the same multiplicities. */
  lemma ApplyFiltersIsOnePass(rows: seq<Book>, c: Criteria)
    ensures ApplyFilters(rows, c) == Filter((b: Book) => Passes(c, b), rows)
  {
    var pg := (b: Book) => |c.genres| == 0 || GenreMatch(c.genres, b.genres);
    var pa := (b: Book) => |c.authors| == 0 || b.author in c.authors;
    var pr := (b: Book) => MeetsFloor(b, c.minRating);
    var pga := (b: Book) => pg(b) && pa(b);
    var g := Filter(pg, rows);
    if |c.genres| == 0 {
      FilterAllKept(pg, rows);
    } else {
      FilterExtensional((b: Book) => GenreMatch(c.genres, b.genres), pg, rows);
    }
    assert FilterGenres(rows, c.genres) == g;
    if |c.authors| == 0 {
      FilterAllKept(pa, g);
    } else {
      FilterExtensional((b: Book) => b.author in c.authors, pa, g);
    }
    assert FilterAuthors(g, c.authors) == Filter(pa, g);
    FilterFusion(pg, pa, pga, rows);
    FilterExtensional(pr, (b: Book) => MeetsFloor(b, c.minRating), Filter(pga, rows));
    FilterFusion(pga, pr, (b: Book) => Passes(c, b), rows);
  }

  /** An unrated row is dropped whatever the floor, even at 0. */
  lemma UnratedDropped(rows: seq<Book>, c: Criteria, b: Book)
    requires b.rating.None?
    ensures b !in ApplyFilters(rows, c)
  {
  }
}
