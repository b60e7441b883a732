/** The two read routes: the full film listing ordered by category then
    title, and the "surprise me" search that samples up to three movies of
    one category. */
module Listing {
  import opened Wrappers
  import opened Categories
  import opened Catalogue
  import Text

  /** The most movies one search shows. */
  const SampleLimit: nat := 3

  /** Category `a` sorts strictly before category `b`: present categories by
      their names, an absent category first when `nullsFirst` and last
      otherwise (where the database puts NULLs). */
  predicate CategoryBefore(a: Option<Category>, b: Option<Category>, nullsFirst: bool) {
    match (a, b)
    case (None, None) => false
    case (None, Some(_)) => nullsFirst
    case (Some(_), None) => !nullsFirst
    case (Some(x), Some(y)) => NameBefore(x, y)
  }

  /** Category `x` sorts strictly before category `y` by name. */
  predicate NameBefore(x: Category, y: Category) {
    x != y && Text.StrLe(Name(x), Name(y))
  }

  /** Row `a` may be listed before row `b`: ordered by category, and by title
      within one category. */
  predicate RowLe(a: Movie, b: Movie, nullsFirst: bool) {
    if a.category == b.category then Text.StrLe(a.title, b.title)
    else CategoryBefore(a.category, b.category, nullsFirst)
  }

  /** Every row may be listed before its successor. */
  predicate Sorted(rows: seq<Movie>, nullsFirst: bool) {
    forall i :: 0 < i < |rows| ==> RowLe(rows[i - 1], rows[i], nullsFirst)
  }

  /** Of two different categories, exactly one sorts before the other. */
  lemma CategoryBeforeTotal(a: Option<Category>, b: Option<Category>, nullsFirst: bool)
    requires a != b
    ensures CategoryBefore(a, b, nullsFirst) != CategoryBefore(b, a, nullsFirst)
  {
    if a.Some? && b.Some? {
      Text.StrLeTotal(Name(a.value), Name(b.value));
      if Text.StrLe(Name(a.value), Name(b.value)) && Text.StrLe(Name(b.value), Name(a.value)) {
        Text.StrLeAntisymmetric(Name(a.value), Name(b.value));
        NameInjective(a.value, b.value);
      }
    }
  }

  /** Sorting before is transitive. */
  lemma CategoryBeforeTransitive(a: Option<Category>, b: Option<Category>, c: Option<Category>, nullsFirst: bool)
    requires CategoryBefore(a, b, nullsFirst) && CategoryBefore(b, c, nullsFirst)
    ensures CategoryBefore(a, c, nullsFirst)
  {
    if a.Some? && b.Some? && c.Some? {
      Text.StrLeTransitive(Name(a.value), Name(b.value), Name(c.value));
      if a == c {
        Text.StrLeAntisymmetric(Name(a.value), Name(b.value));
        NameInjective(a.value, b.value);
      }
    }
  }

  /** Any two rows can be ordered one way or the other. */
  lemma RowLeTotal(a: Movie, b: Movie, nullsFirst: bool)
    ensures RowLe(a, b, nullsFirst) || RowLe(b, a, nullsFirst)
  {
    if a.category == b.category {
      Text.StrLeTotal(a.title, b.title);
    } else {
      CategoryBeforeTotal(a.category, b.category, nullsFirst);
    }
  }

  /** The listing order is transitive. */
  lemma RowLeTransitive(a: Movie, b: Movie, c: Movie, nullsFirst: bool)
    requires RowLe(a, b, nullsFirst) && RowLe(b, c, nullsFirst)
    ensures RowLe(a, c, nullsFirst)
  {
    if a.category == b.category && b.category == c.category {
      Text.StrLeTransitive(a.title, b.title, c.title);
    } else if a.category != b.category && b.category != c.category {
      if a.category == c.category {
        CategoryBeforeTotal(a.category, b.category, nullsFirst);
      } else {
        CategoryBeforeTransitive(a.category, b.category, c.category, nullsFirst);
      }
    }
  }

  /** `x` placed into the sorted `ys` at its first fitting position. */
  function InsertRow(x: Movie, ys: seq<Movie>, nullsFirst: bool): (r: seq<Movie>)
    requires Sorted(ys, nullsFirst)
    ensures Sorted(r, nullsFirst)
    ensures multiset(r) == multiset(ys) + multiset{x}
    ensures |r| == |ys| + 1
    ensures r[0] == x || (|ys| > 0 && r[0] == ys[0])
  {
    if |ys| == 0 then [x]
    else if RowLe(x, ys[0], nullsFirst) then [x] + ys
    else
      RowLeTotal(x, ys[0], nullsFirst);
      assert ys == [ys[0]] + ys[1..];
      [ys[0]] + InsertRow(x, ys[1..], nullsFirst)
  }

  /** The rows of `xs` in listing order. */
  function SortRows(xs: seq<Movie>, nullsFirst: bool): (r: seq<Movie>)
    ensures Sorted(r, nullsFirst)
    ensures multiset(r) == multiset(xs)
  {
    if |xs| == 0 then []
    else
      assert xs == [xs[0]] + xs[1..];
      InsertRow(xs[0], SortRows(xs[1..], nullsFirst), nullsFirst)
  }

  /** In a sorted listing every row may be listed before every later row. */
  lemma {:induction false} SortedPairwise(rows: seq<Movie>, nullsFirst: bool)
    requires Sorted(rows, nullsFirst)
    ensures forall i, j :: 0 <= i < j < |rows| ==> RowLe(rows[i], rows[j], nullsFirst)
  {
    if |rows| > 1 {
      var tail := rows[1..];
      assert Sorted(tail, nullsFirst) by {
        forall i | 0 < i < |tail|
          ensures RowLe(tail[i - 1], tail[i], nullsFirst)
        {
          assert tail[i - 1] == rows[i] && tail[i] == rows[i + 1];
        }
      }
      SortedPairwise(tail, nullsFirst);
      forall i, j | 0 <= i < j < |rows|
        ensures RowLe(rows[i], rows[j], nullsFirst)
      {
        if i == 0 && j > 1 {
          assert rows[1] == tail[0] && rows[j] == tail[j - 1];
          RowLeTransitive(rows[0], rows[1], rows[j], nullsFirst);
        } else if i > 0 {
          assert rows[i] == tail[i - 1] && rows[j] == tail[j - 1];
        }
      }
    }
  }

  /** The seven categories in listing order: by name, so "Christmas" comes
      before "Christmas rom-com", its proper prefix. */
  lemma CategoryListingOrder()
    ensures NameBefore(Autumn, Christmas)
    ensures NameBefore(Christmas, ChristmasRomCom)
    ensures NameBefore(ChristmasRomCom, Halloween)
    ensures NameBefore(Halloween, Spring)
    ensures NameBefore(Spring, Summer)
    ensures NameBefore(Summer, Winter)
  {
    Text.StrLtAt(Name(Autumn), Name(Christmas), 0);
    Text.StrLePrefix(Name(Christmas), Name(ChristmasRomCom));
    Text.StrLtAt(Name(ChristmasRomCom), Name(Halloween), 0);
    Text.StrLtAt(Name(Halloween), Name(Spring), 0);
    SpringBeforeSummer();
    Text.StrLtAt(Name(Summer), Name(Winter), 0);
  }

  /** "Spring" and "Summer" share their first letter and are told apart by the second. */
  lemma SpringBeforeSummer()
    ensures NameBefore(Spring, Summer) && !NameBefore(Summer, Spring)
  {
    Text.StrLtAt(Name(Spring), Name(Summer), 1);
  }

  /** A movie with only a title and a category set. */
  function Titled(id: int, title: string, c: Category): Movie {
    Movie(id, title, "", Some(c), "", "")
  }

  /** Three rows, the first of which belongs after the other two, which are in order. */
  lemma SortThree(a: Movie, b: Movie, c: Movie, nullsFirst: bool)
    requires RowLe(a, b, nullsFirst)
    requires !RowLe(c, a, nullsFirst) && !RowLe(c, b, nullsFirst)
    ensures SortRows([c, a, b], nullsFirst) == [a, b, c]
  {
    var xs := [c, a, b];
    assert xs[1..] == [a, b] && xs[1..][1..] == [b];
    assert [b][1..] == [];
    assert SortRows([b], nullsFirst) == [b];
    assert SortRows([a, b], nullsFirst) == [a, b];
    assert [a, b][1..] == [b];
    assert InsertRow(c, [b], nullsFirst) == [b, c];
    assert InsertRow(c, [a, b], nullsFirst) == [a, b, c];
  }

  /** Three movies ("B", Summer), ("A", Spring), ("C", Spring) are listed as
      A, C, B: Spring before Summer, and by title within Spring. */
  lemma ListingExample(nullsFirst: bool)
    ensures SortRows([Titled(1, "B", Summer), Titled(2, "A", Spring), Titled(3, "C", Spring)], nullsFirst)
         == [Titled(2, "A", Spring), Titled(3, "C", Spring), Titled(1, "B", Summer)]
  {
    var a, b, c := Titled(2, "A", Spring), Titled(3, "C", Spring), Titled(1, "B", Summer);
    SpringBeforeSummer();
    Text.StrLtAt("A", "C", 0);
    SortThree(a, b, c, nullsFirst);
  }

  /** The rows stored under the keys in `ks`. */
  ghost function RowsOf(s: Store, ks: set<int>): set<Movie> {
    set k | k in ks && k in s :: s[k]
  }

  /** Adding one more key of a valid store adds exactly its row. */
  lemma RowsOfAddKey(s: Store, ks: set<int>, k: int)
    requires KeysMatch(s) && ks <= s.Keys && k in s && k !in ks
    ensures multiset(RowsOf(s, ks + {k})) == multiset(RowsOf(s, ks)) + multiset{s[k]}
  {
    assert RowsOf(s, ks + {k}) == RowsOf(s, ks) + {s[k]};
    assert s[k] !in RowsOf(s, ks);
  }

  /** The `films` route: every stored row exactly once, ordered by category
      and then by title. */
  method Films(s: Store, nullsFirst: bool) returns (rows: seq<Movie>)
    requires KeysMatch(s)
    ensures multiset(rows) == multiset(s.Values)
    ensures forall i, j :: 0 <= i < j < |rows| ==> RowLe(rows[i], rows[j], nullsFirst)
  {
    var pending := s.Keys;
    var collected: seq<Movie> := [];
    while pending != {}
      invariant pending <= s.Keys
      invariant multiset(collected) == multiset(RowsOf(s, s.Keys - pending))
      decreases pending
    {
      HasKey(pending);
      var k :| k in pending;
      RowsOfAddKey(s, s.Keys - pending, k);
      assert (s.Keys - pending) + {k} == s.Keys - (pending - {k});
      collected := collected + [s[k]];
      pending := pending - {k};
    }
    forall v | v in s.Values
      ensures v in RowsOf(s, s.Keys)
    {
      if forall k :: k in s ==> s[k] != v {
        assert false;
      }
    }
    assert RowsOf(s, s.Keys) == s.Values;
    rows := SortRows(collected, nullsFirst);
    SortedPairwise(rows, nullsFirst);
  }

  /** The keys of the rows filed under category `c`. */
  function Matching(s: Store, c: Category): (ks: set<int>)
    ensures ks <= s.Keys
    ensures forall k :: k in ks <==> k in s && s[k].category == Some(c)
  {
    set k | k in s && s[k].category == Some(c)
  }

  /** The `search` route: as many movies of category `c` as exist, up to
      SampleLimit, each a stored row and none twice, in an order left to
      chance; together with the category's background image. */
  method Search(s: Store, c: Category) returns (chosen: seq<Movie>, background: string)
    requires KeysMatch(s)
    ensures |chosen| == if |Matching(s, c)| < SampleLimit then |Matching(s, c)| else SampleLimit
    ensures forall i :: 0 <= i < |chosen| ==> chosen[i].id in s && s[chosen[i].id] == chosen[i]
    ensures forall i :: 0 <= i < |chosen| ==> chosen[i].category == Some(c)
    ensures forall i, j :: 0 <= i < j < |chosen| ==> chosen[i] != chosen[j]
    ensures background == BackgroundPath(c)
  {
    var all := Matching(s, c);
    var pool := all;
    chosen := [];
    while |chosen| < SampleLimit && pool != {}
      invariant pool <= all
      invariant |chosen| + |pool| == |all|
      invariant |chosen| <= SampleLimit
      invariant forall i :: 0 <= i < |chosen| ==> chosen[i].id in all - pool && s[chosen[i].id] == chosen[i]
      invariant forall i, j :: 0 <= i < j < |chosen| ==> chosen[i] != chosen[j]
      decreases pool
    {
      HasKey(pool);
      var k :| k in pool;
      chosen := chosen + [s[k]];
      pool := pool - {k};
    }
    background := BackgroundPath(c);
  }
}
