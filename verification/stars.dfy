/** The rating cell: a rating becomes full stars, at most one half or
    almost-full star, and empty stars; a null rating shows "N/A". */
module Stars {
  import opened Seqs

  /** Python's `int()` on a number: truncation toward zero. */
  function Trunc(x: real): (n: int)
    ensures 0.0 <= x ==> n as real <= x < n as real + 1.0
    ensures x < 0.0 ==> n as real - 1.0 < x <= n as real
  {
    if x >= 0.0 then x.Floor else -((-x).Floor)
  }

  /** The structured star description: `partial` holds the fill percentage
      of an almost-full star. */
  datatype StarGlyphs = Glyphs(full: int, half: bool, partial: Option<int>, empty: int)

  /** What the rating column shows for one row. */
  datatype RatingCell = NotAvailable | Rated(glyphs: StarGlyphs, value: real)

  /** One glyph of the rendered star row. */
  datatype Glyph = FullStar | HalfStar | PartialStar(percent: int) | EmptyStar

  /** The glyph counts for rating `r`. */
  function Derive(r: real): (g: StarGlyphs)
    ensures !(g.half && g.partial.Some?)
    ensures 0.0 <= r ==> g.full as real <= r < g.full as real + 1.0
    ensures g.half <==> 0.25 <= r - g.full as real < 0.75
    ensures g.partial.Some? <==> r - g.full as real >= 0.75
    ensures g.partial.Some? ==> 75 <= g.partial.value <= 99
    ensures g.partial.Some? ==>
      g.partial.value as real <= (r - g.full as real) * 100.0 < g.partial.value as real + 1.0
    ensures 0.0 <= r <= 5.0 ==>
      0 <= g.full <= 5 && 0 <= g.empty &&
      g.full + (if g.half || g.partial.Some? then 1 else 0) + g.empty == 5
  {
    var full := Trunc(r);
    var decimal := r - full as real;
    var half := 0.25 <= decimal < 0.75;
    var almost := decimal >= 0.75;
    var empty := 5 - full - (if half then 1 else 0) - (if almost then 1 else 0);
    Glyphs(full, half, if almost then Some(Trunc(decimal * 100.0)) else None, empty)
  }

  /** The rating column: "N/A" exactly for a null rating. */
  function RatingCellFor(rating: Option<real>): (c: RatingCell)
    ensures c.NotAvailable? <==> rating.None?
    ensures c.Rated? ==> c.value == rating.value && c.glyphs == Derive(rating.value)
  {
    match rating
    case None => NotAvailable
    case Some(r) => Rated(Derive(r), r)
  }

  /** `n` copies of `g`; none when `n` is not positive, like `range(n)`. */
  function Repeat(g: Glyph, n: int): (r: seq<Glyph>)
    ensures |r| == if n < 0 then 0 else n
    ensures forall k :: 0 <= k < |r| ==> r[k] == g
  {
    if n <= 0 then [] else Repeat(g, n - 1) + [g]
  }

  function Max0(n: int): nat { if n < 0 then 0 else n }

  /** The star row a description stands for: full stars, the half or
      partial star, then the empty stars. */
  function Layout(g: StarGlyphs): (row: seq<Glyph>)
    ensures |row| == Max0(g.full) + (if g.half || g.partial.Some? then 1 else 0) + Max0(g.empty)
    ensures forall k :: 0 <= k < g.full ==> row[k] == FullStar
    ensures forall k :: |row| - Max0(g.empty) <= k < |row| ==> row[k] == EmptyStar
    ensures g.half ==> row[Max0(g.full)] == HalfStar
    ensures !g.half && g.partial.Some? ==> row[Max0(g.full)] == PartialStar(g.partial.value)
  {
    Repeat(FullStar, g.full) +
    (if g.half then [HalfStar] else if g.partial.Some? then [PartialStar(g.partial.value)] else []) +
    Repeat(EmptyStar, g.empty)
  }

  /** Builds the star row glyph by glyph, as the page appends markup. */
  method RenderStars(r: real) returns (row: seq<Glyph>)
    ensures row == Layout(Derive(r))
  {
    var g := Derive(r);
    row := [];
    var i := 0;
    while i < g.full
      invariant row == Repeat(FullStar, i)
      invariant 0 <= i && (i <= g.full || i == 0)
    {
      row := row + [FullStar];
      i := i + 1;
    }
    if g.half {
      row := row + [HalfStar];
    } else if g.partial.Some? {
      row := row + [PartialStar(g.partial.value)];
    }
    var head := row;
    var j := 0;
    while j < g.empty
      invariant row == head + Repeat(EmptyStar, j)
      invariant 0 <= j && (j <= g.empty || j == 0)
    {
      row := row + [EmptyStar];
      j := j + 1;
    }
  }

  /** For a rating on the 0..5 scale the row has exactly five stars: the
      full ones first, then at most one half or partial star, then the empty
      ones. */
  lemma FiveStars(r: real)
    requires 0.0 <= r <= 5.0
    ensures |Layout(Derive(r))| == 5
    ensures forall k :: 0 <= k < 5 ==>
      (Layout(Derive(r))[k] == FullStar <==> k < Derive(r).full) &&
      (Layout(Derive(r))[k] == EmptyStar <==> k >= 5 - Derive(r).empty)
    ensures Derive(r).half ==> Layout(Derive(r))[Derive(r).full] == HalfStar
    ensures Derive(r).partial.Some? ==>
      Layout(Derive(r))[Derive(r).full] == PartialStar(Derive(r).partial.value)
  {
    var g := Derive(r);
    var row := Layout(g);
    var mid := if g.half then [HalfStar] else if g.partial.Some? then [PartialStar(g.partial.value)] else [];
    assert row == Repeat(FullStar, g.full) + mid + Repeat(EmptyStar, g.empty);
    forall k | 0 <= k < 5
      ensures (row[k] == FullStar <==> k < g.full) && (row[k] == EmptyStar <==> k >= 5 - g.empty)
    {
      if k < g.full {
        assert row[k] == Repeat(FullStar, g.full)[k];
      } else if k < g.full + |mid| {
        assert row[k] == mid[k - g.full];
      } else {
        assert row[k] == Repeat(EmptyStar, g.empty)[k - g.full - |mid|];
      }
    }
  }

  /** Worked cases: whole ratings, a half star, and almost-full stars,
      among them 3.9, the rating the page's own comment names. With exact
      arithmetic 3.9 gives a 90 percent star. */
  lemma WorkedExamples()
    ensures Derive(4.0) == Glyphs(4, false, None, 1)
    ensures Derive(3.9) == Glyphs(3, false, Some(90), 1)
    ensures Derive(3.6) == Glyphs(3, true, None, 1)
    ensures Derive(4.9) == Glyphs(4, false, Some(90), 0)
    ensures Derive(5.0) == Glyphs(5, false, None, 0)
    ensures Derive(0.0) == Glyphs(0, false, None, 5)
  {
    assert Trunc(4.0) == 4;
    assert Trunc(3.6) == 3;
    assert Trunc(3.9) == 3;
    assert Trunc(4.9) == 4;
    assert Trunc(90.0) == 90;
    assert Trunc(5.0) == 5;
    assert Trunc(0.0) == 0;
  }
}
