/** The genre column (split on commas, strip, preview the first two, offer
    "more" when there are further genres) and the sidebar's option lists. */
module Genres {
  import opened Seqs
  import opened Text
  import opened Catalogue
  import opened Filters

  /** `[g.strip() for g in pieces]`. */
  function StripEach(pieces: seq<string>): (r: seq<string>)
    ensures |r| == |pieces|
    ensures forall k :: 0 <= k < |r| ==> r[k] == Strip(pieces[k])
  {
    if |pieces| == 0 then [] else [Strip(pieces[0])] + StripEach(pieces[1..])
  }

  /** `[g.strip() for g in raw.split(',')]`: one genre per comma-separated
      piece, without surrounding whitespace. */
  function GenreItems(raw: string): (items: seq<string>)
    ensures |items| == Count(raw, ',') + 1
    ensures forall k :: 0 <= k < |items| ==> Trimmed(items[k])
    ensures forall k :: 0 <= k < |items| ==> items[k] == Strip(Split(raw, ',')[k])
  {
    StripEach(Split(raw, ','))
  }

  /** Genre `k` is the `k`-th comma-separated piece with only whitespace
      removed from its two ends. */
  lemma GenreItemsArePieces(raw: string)
    ensures |GenreItems(raw)| == |Split(raw, ',')|
    ensures forall k :: 0 <= k < |GenreItems(raw)| ==> Padded(Split(raw, ',')[k], GenreItems(raw)[k])
  {
    var pieces := Split(raw, ',');
    var items := GenreItems(raw);
    forall k | 0 <= k < |items| ensures Padded(pieces[k], items[k]) {
      StripIsPadded(pieces[k]);
    }
  }

  /** Each genre occurs in the raw text and holds no comma. */
  lemma GenreItemsInRaw(raw: string)
    ensures forall k :: 0 <= k < |GenreItems(raw)| ==>
      ',' !in GenreItems(raw)[k] && Contains(raw, GenreItems(raw)[k])
  {
    var pieces := Split(raw, ',');
    var items := GenreItems(raw);
    forall k | 0 <= k < |items| ensures ',' !in items[k] && Contains(raw, items[k]) {
      SplitPiecesContained(raw, ',', k);
      StripContained(pieces[k]);
      ContainsTransitive(raw, pieces[k], items[k]);
      ContainedCharFree(pieces[k], items[k], ',');
    }
  }

  /** A substring cannot hold a character its container lacks. */
  lemma ContainedCharFree(s: string, p: string, c: char)
    requires Contains(s, p) && c !in s
    ensures c !in p
  {
    ContainsIffOccurs(s, p);
    var i :| OccursAt(s, p, i);
    forall k | 0 <= k < |p| ensures p[k] != c {
      assert p[k] == s[i..i + |p|][k] == s[i + k];
    }
  }

  /** What the genre column shows: nothing for a null list, the raw text
      when there are at most two genres, otherwise a two-genre preview with
      a "more" toggle that reveals the raw text. */
  datatype GenreCell = Blank | Plain(text: string) | Expandable(preview: string, full: string)

  function GenreCellFor(genres: Option<string>): (c: GenreCell)
    ensures c.Blank? <==> genres.None?
    ensures c.Expandable? <==> genres.Some? && Count(genres.value, ',') >= 2
    ensures c.Plain? ==> c.text == genres.value
    ensures c.Expandable? ==> c.full == genres.value
  {
    match genres
    case None => Blank
    case Some(raw) =>
      var items := GenreItems(raw);
      var preview := Join(if |items| < 2 then items else items[..2], ", ");
      if |items| > 2 then Expandable(preview, raw) else Plain(raw)
  }

  /** When the toggle is shown, its preview is the first two genres, and
      reading the preview back as a genre list gives exactly those two. */
  lemma PreviewIsFirstTwo(raw: string)
    requires Count(raw, ',') >= 2
    ensures GenreCellFor(Some(raw)).Expandable?
    ensures GenreCellFor(Some(raw)).preview == GenreItems(raw)[0] + ", " + GenreItems(raw)[1]
    ensures GenreItems(GenreCellFor(Some(raw)).preview) == GenreItems(raw)[..2]
  {
    var items := GenreItems(raw);
    PreviewShape(raw);
    GenreItemsInRaw(raw);
    TwoGenres(items[0], items[1]);
  }

  lemma PreviewShape(raw: string)
    requires Count(raw, ',') >= 2
    ensures GenreCellFor(Some(raw)) == Expandable(GenreItems(raw)[0] + ", " + GenreItems(raw)[1], raw)
  {
    var items := GenreItems(raw);
    assert GenreCellFor(Some(raw)) == Expandable(Join(items[..2], ", "), raw);
    JoinFirstTwo(items);
  }

  lemma JoinFirstTwo(items: seq<string>)
    requires |items| >= 2
    ensures Join(items[..2], ", ") == items[0] + ", " + items[1]
  {
    assert items[..2] == [items[0], items[1]];
  }

  /** Two clean genres joined by ", " read back as those two genres. */
  lemma TwoGenres(a: string, b: string)
    requires Trimmed(a) && Trimmed(b) && ',' !in a && ',' !in b
    ensures GenreItems(a + ", " + b) == [a, b]
  {
    var s := a + ", " + b;
    assert s == a + [','] + (" " + b);
    SplitAfterPiece(a, ',', " " + b);
    SplitNoSeparator(" " + b, ',');
    assert Split(s, ',') == [a, " " + b];
    StripOfTrimmed(a);
    StripLeadingSpace(b);
    assert StripEach([a, " " + b]) == [a, b];
  }

  /** Stripping a string without whitespace at its ends changes nothing. */
  lemma StripOfTrimmed(t: string)
    requires Trimmed(t)
    ensures Strip(t) == t
  {
    assert TrimStart(t) == t;
  }

  lemma StripLeadingSpace(t: string)
    requires Trimmed(t)
    ensures Strip(" " + t) == t
  {
    assert (" " + t)[1..] == t;
    assert TrimStart(" " + t) == TrimStart(t) == t;
  }

  /** Every stripped genre of every row, in table order: the comprehension
      that feeds the genre option list. */
  function AllGenreItems(rows: seq<Book>): (r: seq<string>)
    ensures forall g :: g in r <==>
      exists b :: b in rows && b.genres.Some? && g in GenreItems(b.genres.value)
    decreases |rows|
  {
    if |rows| == 0 then []
    else
      var init := AllGenreItems(rows[..|rows| - 1]);
      var last := rows[|rows| - 1];
      var own := if last.genres.Some? then GenreItems(last.genres.value) else [];
      assert forall g :: g in init + own <==>
        exists b :: b in rows && b.genres.Some? && g in GenreItems(b.genres.value) by {
        assert rows == rows[..|rows| - 1] + [last];
        forall g ensures g in init + own <==>
          exists b :: b in rows && b.genres.Some? && g in GenreItems(b.genres.value) {
          if exists b :: b in rows && b.genres.Some? && g in GenreItems(b.genres.value) {
            var b :| b in rows && b.genres.Some? && g in GenreItems(b.genres.value);
            if b != last {
              assert b in rows[..|rows| - 1];
            }
          }
        }
      }
      init + own
  }

  /** The genre options: every genre of every non-null list, once each, in
      ascending order. */
  function GenreOptions(rows: seq<Book>): (r: seq<string>)
    ensures StrictlySorted(r)
    ensures forall g :: g in r <==>
      exists b :: b in rows && b.genres.Some? && g in GenreItems(b.genres.value)
  {
    SortedDistinct(AllGenreItems(rows))
  }

  /** The author options: every author of the table, once each, in
      ascending order. */
  function AuthorOptions(rows: seq<Book>): (r: seq<string>)
    ensures StrictlySorted(r)
    ensures forall a :: a in r <==> exists b :: b in rows && b.author == a
  {
    SortedDistinct(Authors(rows))
  }

  /** The `Author Name` column, in table order. */
  function Authors(rows: seq<Book>): (r: seq<string>)
    ensures forall a :: a in r <==> exists b :: b in rows && b.author == a
  {
    if |rows| == 0 then []
    else
      assert forall b :: b in rows <==> b == rows[0] || b in rows[1..];
      [rows[0].author] + Authors(rows[1..])
  }

  /** Selecting a genre offered for a row keeps that row: the option is a
      stripped piece of the row's list, so it occurs in the raw text. */
  lemma OfferedGenreKeepsRow(selected: seq<string>, g: string, b: Book)
    requires g in selected
    requires b.genres.Some? && g in GenreItems(b.genres.value)
    ensures GenreMatch(selected, b.genres)
  {
    GenreItemsInRaw(b.genres.value);
  }

  /** The genre filter tests substrings, not whole genres: selecting
      "Fiction" keeps a row whose only genre is "Science Fiction"... */
  lemma GenreMatchIsSubstring()
    ensures GenreMatch(["Fiction"], Some("Science Fiction"))
  {
    var g := "Fiction";
    assert "Science Fiction" == "Science " + g;
    SuffixContained("Science ", g);
    assert g in [g];
  }

  /** A string occurs at the end of anything it is appended to. */
  lemma SuffixContained(p: string, g: string)
    ensures Contains(p + g, g)
  {
    assert (p + g)[|p|..|p| + |g|] == g;
    ContainsOfOccurs(p + g, g, |p|);
  }

  /** ...although "Fiction" is not one of that row's genres. */
  lemma SubstringIsNotAGenre()
    ensures "Fiction" !in GenreItems("Science Fiction")
  {
    var raw := "Science Fiction";
    assert ',' !in raw && Trimmed(raw);
    SingleGenre(raw);
  }

  /** A list without commas and without surrounding whitespace is one genre. */
  lemma SingleGenre(raw: string)
    requires ',' !in raw && Trimmed(raw)
    ensures GenreItems(raw) == [raw]
  {
    SplitNoSeparator(raw, ',');
    StripOfTrimmed(raw);
    assert StripEach(Split(raw, ',')) == [raw];
  }
}
