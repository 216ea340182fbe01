# Book catalogue page: filter, sort, stars, genres and paging

This project models the logic underneath the single-page book catalogue in
`app.py`: a table of books (title, author, optional rating, rating count,
optional comma-separated genre list, two links, page count) is filtered by
the sidebar's genre, author and minimum-rating selections, sorted by one of
five columns in either direction, shown up to a session cursor that grows
by 100 rows per "Load More" click, and each shown row is given a star-rating
description and a genre preview. The sidebar's genre and author option
lists are modelled as well.

Modules, one per component:

- `Seqs` (seqs.dfy): an optional value, an order-preserving `Filter`, and the
  subsequence relation, with filter fusion.
- `Text` (text.dfy): Python's `str` ordering, the substring test `p in s`,
  `split(',')`, `join`, `strip()` (over the characters `str.isspace()`
  accepts) and `sorted(set(...))` for strings.
- `Catalogue` (catalogue.dfy): the `Book` record, the five sort columns, and
  the key order the sort uses.
- `Filters` (filters.dfy): the three masks and their composition.
- `Sorting` (sorting.dfy): the sort and the filter-then-sort pipeline.
- `Stars` (stars.dfy): rating to glyph counts, and the glyph row built by loops.
- `Genres` (genres.dfy): the genre cell, the genre and author option lists.
- `Pagination` (pagination.dfy): the `Pager` class holding `end_row`.

Behaviour of the code that is easy to misread:

- The genre filter keeps a row when its raw `Genres List` text contains a
  selected genre as a substring (app.py:59-61). It does not intersect parsed
  genre lists, so selecting "Fiction" keeps a "Science Fiction" row
  (`Genres.GenreMatchIsSubstring`, `Genres.SubstringIsNotAGenre`).
- A null rating fails `Rating >= selected_rating` even when the floor is 0
  (app.py:66); it is not treated as a rating of 0.
- `sort_values` is called with its default algorithm, which is not stable
  (app.py:68-71). The sort is therefore specified only as an ordered
  permutation, and `Sorting.SortedKeysDetermined` shows that this fixes the
  output up to the order of rows whose keys tie.
- Ratings above 5 are not clamped: the empty-star count can be negative,
  and `range` of a negative count draws nothing (app.py:193, 232). The
  five-star properties are proved for ratings in [0, 5].

## Model

| member | source | states |
|---|---|---|
| `Seqs.Filter` | app.py:56-66 | a row mask keeps exactly the rows that satisfy it and never adds rows |
| `Seqs.FilterMultiplicity` | app.py:56-66 | a row mask keeps every copy of an accepted row and no copy of a rejected one |
| `Seqs.FilterIsSubsequence` | app.py:56-66 | a masked table is an order-preserving subsequence of the table |
| `Seqs.SubsequenceTransitive` | app.py:56-66 | a subsequence of a subsequence is a subsequence, so chained masks preserve order |
| `Seqs.FilterFusion` | app.py:56-66 | two masks applied in turn keep the same rows, in the same order, as one mask on their conjunction |
| `Text.LexLeTotal` | app.py:27 | Python's string order compares any two strings |
| `Text.LexLeTransitive` | app.py:27 | Python's string order is transitive |
| `Text.LexLeAntisymmetric` | app.py:27 | two strings each no greater than the other are equal |
| `Text.InsertUnique` | app.py:27 | inserting into a strictly sorted list keeps it strictly sorted and adds exactly the new value |
| `Text.SortedDistinct` | app.py:27 | `sorted(set(xs))` is strictly ascending and holds exactly the values of `xs` |
| `Text.Contains` | app.py:60 | Python's `g in x`: the empty string and `x` itself occur in `x`, and nothing longer than `x` does |
| `Text.ContainsIffOccurs` | app.py:60 | `g in x` holds exactly when `g` occurs at some position of `x` |
| `Text.ContainsTransitive` | app.py:60 | a substring of a substring is a substring |
| `Text.Split` | app.py:247 | `split(',')` yields one more piece than there are commas, none containing a comma, the first a prefix of the input |
| `Text.Join` | app.py:248 | `sep.join(parts)`: the parts with the separator between them, beginning with the first part; `JoinSplit` and `SplitJoin` make it the inverse of `split` |
| `Text.JoinSplit` | app.py:247 | joining the split pieces with the separator restores the string |
| `Text.SplitJoin` | app.py:247 | splitting a join of comma-free pieces restores the pieces |
| `Text.SplitPiecesContained` | app.py:247 | every split piece occurs in the split string |
| `Text.TrimStart` | app.py:247 | left strip keeps a suffix of the input and leaves no whitespace at the front |
| `Text.TrimStartRemovesSpace` | app.py:247 | everything left strip removes is whitespace |
| `Text.TrimEnd` | app.py:247 | right strip keeps a prefix of the input and leaves no whitespace at the back |
| `Text.TrimEndRemovesSpace` | app.py:247 | everything right strip removes is whitespace |
| `Text.Strip` | app.py:247 | `strip()` leaves no whitespace at either end |
| `Text.StripIsPadded` | app.py:247 | the input is whitespace, then the stripped text, then whitespace |
| `Text.StripIdempotent` | app.py:247 | stripping twice equals stripping once |
| `Text.StripContained` | app.py:247 | the stripped text occurs in the original |
| `Catalogue.KeyOf` | app.py:68-71 | the sort key of a row: only a null rating is missing; author and title compare as text; the rating-count and rating columns compare as numbers |
| `Catalogue.KeyLe` | app.py:68-71 | the key order: a missing value is below everything and only a missing value is below a missing one; numbers compare numerically and come before text |
| `Catalogue.KeyLeTotal` | app.py:68-71 | any two cell values of a sort column are comparable |
| `Catalogue.KeyLeTransitive` | app.py:68-71 | the key order is transitive |
| `Catalogue.KeyLeAntisymmetric` | app.py:68-71 | keys that compare both ways are equal |
| `Filters.GenreMatch` | app.py:59-60 | the genre mask holds only for a non-null list and a non-empty selection; a selection that contains a non-null list's own raw text, or the empty string, matches that list |
| `Filters.MeetsFloor` | app.py:66 | the rating mask fails for a null rating and otherwise holds exactly when the integer floor is at most the rating's whole part |
| `Filters.FilterGenres` | app.py:58-61 | with a selection, a row survives iff its genre list is non-null and contains a selected genre as a substring; no selection keeps the table; the result is a subsequence |
| `Filters.FilterAuthors` | app.py:63-64 | with a selection, a row survives iff its author is selected; no selection keeps the table; the result is a subsequence |
| `Filters.FilterRating` | app.py:66 | a row survives iff its rating is non-null and at least the floor; the result is a subsequence |
| `Filters.ApplyFilters` | app.py:56-66 | the filtered table is a subsequence of the table holding exactly the rows that pass all active masks |
| `Filters.ApplyFiltersIsOnePass` | app.py:56-66 | the three passes equal a single pass of the combined mask, including order and duplicates |
| `Filters.UnratedDropped` | app.py:66 | an unrated book never survives, whatever the floor |
| `Sorting.Insert` | app.py:68-71 | inserting into an ordered sequence adds one element and keeps it ordered |
| `Sorting.SortRows` | app.py:68-71 | the sort is a permutation, non-decreasing in the column when ascending and non-increasing when descending |
| `Sorting.Pipeline` | app.py:56-71 | the listed table is a permutation of the filtered table, holds exactly the passing rows and is ordered |
| `Sorting.ListedMultiplicity` | app.py:56-71 | the listed table holds every copy of every passing row and no other row, so its length counts the passing rows |
| `Sorting.SortedKeysDetermined` | app.py:68-71 | two ordered permutations of the same rows carry the same key at every position |
| `Stars.Trunc` | app.py:187 | `int()` truncates toward zero |
| `Stars.Derive` | app.py:186-193 | full stars are the truncated rating; half iff the fraction is in [0.25, 0.75); almost-full iff at least 0.75, with a fill of `int(fraction * 100)` percent, between 75 and 99; never both; on [0, 5] the counts are non-negative and sum to five |
| `Stars.RatingCellFor` | app.py:183-240 | the rating cell is "N/A" exactly for a null rating, otherwise the derived stars with the rating as label |
| `Stars.Repeat` | app.py:199-200 | `range(n)` appends `n` glyphs, none for a non-positive `n` |
| `Stars.Layout` | app.py:196-233 | the star row for a description: full stars first, then the half star when there is one, otherwise the partial star at its fill when there is one, then empty stars, with non-positive counts drawing nothing |
| `Stars.RenderStars` | app.py:196-233 | the loops append full stars, then the half or partial star, then empty stars, exactly as the description says |
| `Stars.FiveStars` | app.py:187-233 | for a rating in [0, 5] the row has five glyphs: the full ones first, right after them the half star or the partial star at its fill when there is one, and the empty ones last |
| `Stars.WorkedExamples` | app.py:186-218 | 4.0 gives 4 full and 1 empty; 3.6 gives 3 full, a half and 1 empty; 3.9 gives 3 full, a 90 percent star and 1 empty; 4.9 gives 4 full and a 90 percent star; 5.0 and 0.0 give all full and all empty |
| `Genres.StripEach` | app.py:247 | each piece is stripped, in order |
| `Genres.GenreItems` | app.py:247 | genre `k` is the `k`-th comma-separated piece stripped, so one trimmed genre per piece |
| `Genres.GenreItemsArePieces` | app.py:247 | genre `k` is the `k`-th piece with only whitespace removed from its ends |
| `Genres.GenreItemsInRaw` | app.py:247 | each genre holds no comma and occurs in the raw list |
| `Genres.GenreCellFor` | app.py:245-280 | a null list shows nothing; "more" appears iff there are more than two pieces; otherwise the raw text is shown unchanged; the expanded part is the raw text |
| `Genres.PreviewIsFirstTwo` | app.py:247-256 | with "more", the preview is the first two genres joined by ", " and reads back as exactly those two |
| `Genres.TwoGenres` | app.py:247-248 | two clean genres joined by ", " split and strip back to themselves |
| `Genres.AllGenreItems` | app.py:27 | the flattened genres are exactly the genres of the non-null lists |
| `Genres.GenreOptions` | app.py:27 | the genre options are strictly ascending and are exactly the genres of the non-null lists |
| `Genres.Authors` | app.py:41 | the author column lists exactly the table's authors |
| `Genres.AuthorOptions` | app.py:41 | the author options are strictly ascending and are exactly the table's authors |
| `Genres.OfferedGenreKeepsRow` | app.py:27-61 | selecting a genre offered from a row never drops that row |
| `Genres.GenreMatchIsSubstring` | app.py:58-61 | selecting "Fiction" keeps a row whose genre list is "Science Fiction" |
| `Genres.SubstringIsNotAGenre` | app.py:247 | "Fiction" is not a genre of the list "Science Fiction" |
| `Pagination.Pager.constructor` | app.py:16-17 | a session's cursor starts at 100 |
| `Pagination.Pager.Visible` | app.py:173 | the shown rows are the first `min(end_row, len)` rows |
| `Pagination.Pager.HasMore` | app.py:307 | "Load More" is offered exactly when some listed row is hidden by the cursor |
| `Pagination.Pager.LoadMore` | app.py:308-309 | a click adds exactly 100 and keeps the cursor a positive multiple of 100 |
| `Pagination.Pager.Run` | app.py:307-312 | one page run shows the first `min(end_row, len)` listed rows, offers "Load More" iff `end_row < len`, and changes the cursor only by a click's 100, never resetting it when criteria change |
| `Pagination.ShownRowsPass` | app.py:173 | every shown row passes the filters, and with nothing more to load the whole listed table is shown |

## Left out

- Loading the CSV file and Streamlit's cache (app.py:9-13): file I/O and framework caching; the table is a parameter.
- Widgets, page configuration, columns and CSS (app.py:6, 21-53, 75-171): presentation only; the selections are parameters.
- HTML and SVG markup and the embedded JavaScript toggle (app.py:196-236, 253-299): the model produces the glyph row and the genre cell data, not markup; the toggle's hiding of itself once opened is browser behaviour.
- Stars.Derive: reals are exact, so the binary rounding of `decimal_part`, of `int(decimal_part * 100)` near a boundary and the `:.1f` label formatting (app.py:186-188, 218, 236) are not modelled; the label is the rating itself. For example, for 3.9 the page computes `(3.9 - 3) * 100` as 89.99999999999999 in binary floating point and draws an 89 percent star, where the model gives 90 (`Stars.WorkedExamples`).
- Sorting.SortRows: pandas' placement of null values, its tie order and its type error on a column that mixes numbers and text are library behaviour; the model puts a missing key below every value, orders numbers before text, and promises nothing about ties. After filtering no rating is null, so the first choice does not affect the listed table.
- `st.rerun()` and the session lifecycle (app.py:310): `Pager.Run` models one run, with a click taking effect in the cursor for the next run.
- Formatting of `No Of Rating` and `No Of Pages` (app.py:243, 302) and the two link cells (app.py:282-299): presentation only; the fields are kept in `Book`.
- A null `Author Name`: the model's author is always a string, so the `dropna()` at app.py:41 has nothing to drop.
- The "You've reached the end!" message (app.py:311-312) is the `more == false` outcome of `Pager.Run`.
