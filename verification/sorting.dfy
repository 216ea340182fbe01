/** `sort_values(by=sort_col, ascending=...)` on the filtered table, and the
    whole filter-then-sort pipeline the page lists. Only what any correct
    sort guarantees is promised: a permutation ordered by the key. Ties may
    come out in any order. */
module Sorting {
  import opened Seqs
  import opened Catalogue
  import opened Filters

  /** `a` may stand before `b` in the output for the chosen column and order. */
  predicate Precedes(col: SortColumn, order: SortOrder, a: Book, b: Book)
  {
    if order == Ascending then KeyLe(KeyOf(col, a), KeyOf(col, b))
    else KeyLe(KeyOf(col, b), KeyOf(col, a))
  }

  /** Non-decreasing in the column when ascending, non-increasing otherwise. */
  predicate SortedBy(s: seq<Book>, col: SortColumn, order: SortOrder)
  {
    forall i, j :: 0 <= i < j < |s| ==> Precedes(col, order, s[i], s[j])
  }

  lemma PrecedesTotal(col: SortColumn, order: SortOrder, a: Book, b: Book)
    ensures Precedes(col, order, a, b) || Precedes(col, order, b, a)
  {
    KeyLeTotal(KeyOf(col, a), KeyOf(col, b));
  }

  lemma PrecedesTransitive(col: SortColumn, order: SortOrder, a: Book, b: Book, c: Book)
    requires Precedes(col, order, a, b) && Precedes(col, order, b, c)
    ensures Precedes(col, order, a, c)
  {
    if order == Ascending {
      KeyLeTransitive(KeyOf(col, a), KeyOf(col, b), KeyOf(col, c));
    } else {
      KeyLeTransitive(KeyOf(col, c), KeyOf(col, b), KeyOf(col, a));
    }
  }

  /** Places `x` into an already ordered sequence. */
  function Insert(x: Book, s: seq<Book>, col: SortColumn, order: SortOrder): (r: seq<Book>)
    requires SortedBy(s, col, order)
    ensures multiset(r) == multiset(s) + multiset{x}
    ensures SortedBy(r, col, order)
    decreases |s|
  {
    if |s| == 0 then [x]
    else if Precedes(col, order, x, s[0]) then
      assert forall j :: 0 <= j < |s| ==> Precedes(col, order, x, s[j]) by {
        forall j | 0 < j < |s| ensures Precedes(col, order, x, s[j]) {
          PrecedesTransitive(col, order, x, s[0], s[j]);
        }
      }
      [x] + s
    else
      var rest := Insert(x, s[1..], col, order);
      assert s == [s[0]] + s[1..];
      PrecedesTotal(col, order, x, s[0]);
      HeadPrecedesRest(s, x, rest, col, order);
      ConsSortedBy(s[0], rest, col, order);
      [s[0]] + rest
  }

  /** The front of an ordered sequence may precede every element of its
      tail with one more element added that it may also precede. */
  lemma HeadPrecedesRest(s: seq<Book>, x: Book, rest: seq<Book>, col: SortColumn, order: SortOrder)
    requires |s| > 0 && SortedBy(s, col, order)
    requires multiset(rest) == multiset(s[1..]) + multiset{x}
    requires Precedes(col, order, s[0], x)
    ensures forall y :: y in rest ==> Precedes(col, order, s[0], y)
  {
    forall y | y in rest ensures Precedes(col, order, s[0], y) {
      assert y in multiset(rest);
      if y != x {
        assert y in multiset(s[1..]);
        var j :| 0 <= j < |s[1..]| && s[1..][j] == y;
        assert s[j + 1] == y;
      }
    }
  }

  /** An element that may precede every element of an ordered sequence
      can go in front of it. */
  lemma ConsSortedBy(h: Book, rest: seq<Book>, col: SortColumn, order: SortOrder)
    requires SortedBy(rest, col, order)
    requires forall y :: y in rest ==> Precedes(col, order, h, y)
    ensures SortedBy([h] + rest, col, order)
  {
    var r := [h] + rest;
    forall i, j | 0 <= i < j < |r| ensures Precedes(col, order, r[i], r[j]) {
      assert r[j] == rest[j - 1];
      if i > 0 {
        assert r[i] == rest[i - 1];
      }
    }
  }

  /** The sort: a permutation of `rows` in the chosen order. */
  function SortRows(rows: seq<Book>, col: SortColumn, order: SortOrder): (r: seq<Book>)
    ensures multiset(r) == multiset(rows)
    ensures order == Ascending ==>
      forall i, j :: 0 <= i < j < |r| ==> KeyLe(KeyOf(col, r[i]), KeyOf(col, r[j]))
    ensures order == Descending ==>
      forall i, j :: 0 <= i < j < |r| ==> KeyLe(KeyOf(col, r[j]), KeyOf(col, r[i]))
    decreases |rows|
  {
    if |rows| == 0 then []
    else
      assert rows == rows[..|rows| - 1] + [rows[|rows| - 1]];
      var r := Insert(rows[|rows| - 1], SortRows(rows[..|rows| - 1], col, order), col, order);
      assert SortedBy(r, col, order);
      r
  }

  /** The table the page lists: filtered, then sorted. */
  function Pipeline(rows: seq<Book>, c: Criteria, col: SortColumn, order: SortOrder): (r: seq<Book>)
    ensures multiset(r) == multiset(ApplyFilters(rows, c))
    ensures forall b :: b in r <==> b in rows && Passes(c, b)
    ensures SortedBy(r, col, order)
  {
    var f := ApplyFilters(rows, c);
    var r := SortRows(f, col, order);
    assert forall b :: b in r <==> b in multiset(f);
    r
  }

  /** The listed table holds every copy of every passing row and nothing
      else, so its length counts the passing rows with repetition. */
  lemma ListedMultiplicity(rows: seq<Book>, c: Criteria, col: SortColumn, order: SortOrder)
    ensures forall b ::
      multiset(Pipeline(rows, c, col, order))[b] == (if Passes(c, b) then multiset(rows)[b] else 0)
  {
    ApplyFiltersIsOnePass(rows, c);
    FilterMultiplicity((b: Book) => Passes(c, b), rows);
  }

  /** Any two orderings of the same rows that both satisfy the sort's
      contract list the same key values in the same positions: the result is
      fixed up to the order of rows whose keys tie. */
  lemma {:induction false} SortedKeysDetermined(a: seq<Book>, b: seq<Book>, col: SortColumn, order: SortOrder)
    requires multiset(a) == multiset(b)
    requires SortedBy(a, col, order) && SortedBy(b, col, order)
    ensures |a| == |b|
    ensures forall i :: 0 <= i < |a| ==> KeyOf(col, a[i]) == KeyOf(col, b[i])
    decreases |a|
  {
    assert |a| == |multiset(a)| == |multiset(b)| == |b|;
    if |a| > 0 {
      var i := HeadsTie(a, b, col, order);
      var b' := RemoveAt(b, i, col, order);
      DropHead(a, col, order);
      SortedKeysDetermined(a[1..], b', col, order);
      KeysRealign(a, b, b', i, col, order);
    }
  }

  /** Removing the front keeps an ordered sequence ordered and takes one
      copy of the front out of its multiset. */
  lemma DropHead(a: seq<Book>, col: SortColumn, order: SortOrder)
    requires |a| > 0 && SortedBy(a, col, order)
    ensures SortedBy(a[1..], col, order)
    ensures multiset(a[1..]) == multiset(a) - multiset{a[0]}
  {
    assert a == [a[0]] + a[1..];
  }

  /** Puts the element removed at position `i` back: if the tails tie
      key by key and the removed element ties with the front, the whole
      sequences tie key by key. */
  lemma KeysRealign(a: seq<Book>, b: seq<Book>, b': seq<Book>, i: int, col: SortColumn, order: SortOrder)
    requires SortedBy(b, col, order) && 0 <= i < |b| && |a| == |b|
    requires b' == b[..i] + b[i + 1..]
    requires KeyOf(col, b[i]) == KeyOf(col, a[0]) == KeyOf(col, b[0])
    requires |a[1..]| == |b'|
    requires forall k :: 0 <= k < |b'| ==> KeyOf(col, a[1..][k]) == KeyOf(col, b'[k])
    ensures forall k :: 0 <= k < |a| ==> KeyOf(col, a[k]) == KeyOf(col, b[k])
  {
    forall k | 0 < k < |a| ensures KeyOf(col, a[k]) == KeyOf(col, b[k]) {
      assert a[k] == a[1..][k - 1];
      if k - 1 < i {
        assert b'[k - 1] == b[k - 1];
        KeysTieBefore(b, col, order, k, i);
      } else {
        assert b'[k - 1] == b[k];
      }
    }
  }

  /** The fronts of two ordered permutations have equal keys; `i` is a
      position of `a[0]` in `b`. */
  lemma HeadsTie(a: seq<Book>, b: seq<Book>, col: SortColumn, order: SortOrder) returns (i: int)
    requires multiset(a) == multiset(b) && |a| > 0
    requires SortedBy(a, col, order) && SortedBy(b, col, order)
    ensures 0 <= i < |b| && b[i] == a[0]
    ensures KeyOf(col, a[0]) == KeyOf(col, b[0])
  {
    var x, y := a[0], b[0];
    assert x in multiset(b) && y in multiset(a);
    i :| 0 <= i < |b| && b[i] == x;
    var j :| 0 <= j < |a| && a[j] == y;
    assert Precedes(col, order, y, x) by {
      if i > 0 { assert Precedes(col, order, b[0], b[i]); } else { PrecedesTotal(col, order, x, x); }
    }
    assert Precedes(col, order, x, y) by {
      if j > 0 { assert Precedes(col, order, a[0], a[j]); } else { PrecedesTotal(col, order, y, y); }
    }
    KeyLeAntisymmetric(KeyOf(col, x), KeyOf(col, y));
  }

  /** Deleting one element keeps a sequence ordered. */
  lemma RemoveAt(b: seq<Book>, i: int, col: SortColumn, order: SortOrder) returns (b': seq<Book>)
    requires SortedBy(b, col, order) && 0 <= i < |b|
    ensures b' == b[..i] + b[i + 1..]
    ensures multiset(b') == multiset(b) - multiset{b[i]}
    ensures SortedBy(b', col, order)
  {
    b' := b[..i] + b[i + 1..];
    assert b == b[..i] + [b[i]] + b[i + 1..];
    assert multiset(b) == multiset(b[..i]) + multiset([b[i]]) + multiset(b[i + 1..]);
    forall p, q | 0 <= p < q < |b'| ensures Precedes(col, order, b'[p], b'[q]) {
      var p' := if p < i then p else p + 1;
      var q' := if q < i then q else q + 1;
      assert b'[p] == b[p'] && b'[q] == b[q'];
    }
  }

  /** In an ordered sequence whose front element ties with the element at
      position `i`, everything up to `i` ties with them too. */
  lemma KeysTieBefore(b: seq<Book>, col: SortColumn, order: SortOrder, k: int, i: int)
    requires SortedBy(b, col, order)
    requires 0 < k <= i < |b|
    requires KeyOf(col, b[0]) == KeyOf(col, b[i])
    ensures KeyOf(col, b[k - 1]) == KeyOf(col, b[k])
  {
    assert Precedes(col, order, b[0], b[k - 1]) by {
      if k - 1 > 0 { } else { PrecedesTotal(col, order, b[0], b[0]); }
    }
    assert Precedes(col, order, b[k], b[i]) by {
      if k < i { } else { PrecedesTotal(col, order, b[k], b[k]); }
    }
    assert Precedes(col, order, b[k - 1], b[k]);
    if order == Ascending {
      KeyLeTransitive(KeyOf(col, b[k]), KeyOf(col, b[i]), KeyOf(col, b[k - 1]));
      KeyLeAntisymmetric(KeyOf(col, b[k - 1]), KeyOf(col, b[k]));
    } else {
      KeyLeTransitive(KeyOf(col, b[k - 1]), KeyOf(col, b[0]), KeyOf(col, b[k]));
      KeyLeAntisymmetric(KeyOf(col, b[k - 1]), KeyOf(col, b[k]));
    }
  }
}
