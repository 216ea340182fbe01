/** One row of the book table and the sort keys derived from it. */
module Catalogue {
  import opened Seqs
  import opened Text

  /** The `No Of Pages` cell: a number, or a text placeholder. */
  datatype Pages = PageCount(n: int) | PageText(s: string)

  /** One row of the table. `Rating` and `Genres List` may be null. */
  datatype Book = Book(
    title: string,
    author: string,
    rating: Option<real>,
    ratingCount: int,
    genres: Option<string>,
    detailUrl: string,
    amazonLink: string,
    pages: Pages)

  /** The five columns offered in the "Sort By" box. */
  datatype SortColumn = NoOfRating | RatingColumn | AuthorName | BookTitle | NoOfPages

  /** The two choices of the "Sort Order" radio. */
  datatype SortOrder = Descending | Ascending

  /** A cell value as the sort compares it. */
  datatype Key = Missing | Num(x: real) | Str(s: string)

  /** The value of `col` in row `b`. */
  function KeyOf(col: SortColumn, b: Book): (k: Key)
    ensures k.Missing? <==> col == RatingColumn && b.rating.None?
    ensures col == AuthorName || col == BookTitle ==> k.Str?
    ensures col == NoOfRating || col == RatingColumn ==> !k.Str?
  {
    match col
    case NoOfRating => Num(b.ratingCount as real)
    case RatingColumn => if b.rating.Some? then Num(b.rating.value) else Missing
    case AuthorName => Str(b.author)
    case BookTitle => Str(b.title)
    case NoOfPages => match b.pages
      case PageCount(n) => Num(n as real)
      case PageText(s) => Str(s)
  }

  /** The order on keys: numbers numerically, text as Python compares str;
      a missing value below everything, numbers below text. */
  predicate KeyLe(a: Key, b: Key)
    ensures a.Missing? ==> KeyLe(a, b)
    ensures KeyLe(a, b) && b.Missing? ==> a.Missing?
    ensures a.Num? && b.Num? ==> (KeyLe(a, b) <==> a.x <= b.x)
    ensures a.Num? && b.Str? ==> KeyLe(a, b)
    ensures a.Str? && b.Num? ==> !KeyLe(a, b)
  {
    match (a, b)
    case (Missing, _) => true
    case (_, Missing) => false
    case (Num(x), Num(y)) => x <= y
    case (Num(_), Str(_)) => true
    case (Str(_), Num(_)) => false
    case (Str(s), Str(t)) => LexLe(s, t)
  }

  lemma KeyLeTotal(a: Key, b: Key)
    ensures KeyLe(a, b) || KeyLe(b, a)
  {
    if a.Str? && b.Str? {
      LexLeTotal(a.s, b.s);
    }
  }

  lemma KeyLeTransitive(a: Key, b: Key, c: Key)
    requires KeyLe(a, b) && KeyLe(b, c)
    ensures KeyLe(a, c)
  {
    if a.Str? && b.Str? && c.Str? {
      LexLeTransitive(a.s, b.s, c.s);
    }
  }

  lemma KeyLeAntisymmetric(a: Key, b: Key)
    requires KeyLe(a, b) && KeyLe(b, a)
    ensures a == b
  {
    if a.Str? && b.Str? {
      LexLeAntisymmetric(a.s, b.s);
    }
  }
}
