/** The movie table as an abstract store, and the effect each route has on it. */
module Catalogue {
  import opened Wrappers
  import opened Categories
  import opened Metadata

  /** One row of the movie table. `category` is absent until the movie is edited. */
  datatype Movie = Movie(
    id: int,
    title: string,
    year: string,
    category: Option<Category>,
    description: string,
    imageUrl: string)

  /** The movie table, keyed by primary key. */
  type Store = map<int, Movie>

  /** Why a request fails: the id names no row (HTTP 404), or the title is
      already taken (the unique constraint on `title`). */
  datatype Error = NotFound | DuplicateTitle

  /** The store after a successful insert, and the key the new row received. */
  datatype Inserted = Inserted(store: Store, id: int)

  /** Every row sits under its own primary key. */
  ghost predicate KeysMatch(s: Store) {
    forall k :: k in s ==> s[k].id == k
  }

  /** The table invariant: keys match rows, and no two rows share a title
      (the unique constraint on `title`). */
  ghost predicate Valid(s: Store) {
    && KeysMatch(s)
    && (forall a, b :: a in s && b in s && s[a].title == s[b].title ==> a == b)
  }

  /** Whether some row already carries `title`. */
  predicate TitleTaken(s: Store, title: string) {
    exists k :: k in s && s[k].title == title
  }

  /** A non-empty set of keys has a member to pick. */
  lemma HasKey(ks: set<int>)
    requires ks != {}
    ensures exists k :: k in ks
  {
    if forall k :: k !in ks {
      assert false;
    }
  }

  /** `m` is the largest of `ks`. */
  predicate IsLargest(m: int, ks: set<int>) {
    m in ks && forall k :: k in ks ==> k <= m
  }

  /** Every non-empty set of keys has a largest one. */
  lemma {:induction false} LargestKeyExists(ks: set<int>)
    requires ks != {}
    ensures exists m :: IsLargest(m, ks)
    decreases |ks|
  {
    HasKey(ks);
    var x :| x in ks;
    if ks == {x} {
      assert IsLargest(x, ks);
    } else {
      var rest := ks - {x};
      assert ks == rest + {x};
      LargestKeyExists(rest);
      var m :| IsLargest(m, rest);
      var top := if x <= m then m else x;
      forall k | k in ks
        ensures k <= top
      {
        if k != x { assert k in rest; }
      }
      assert IsLargest(top, ks);
    }
  }

  /** The key the database gives a new row: one more than the largest key in
      use, or 1 in an empty table. It is above every key in use. */
  function NextId(s: Store): (id: int)
    ensures id !in s
    ensures forall k :: k in s ==> k < id
    ensures s != map[] ==> id - 1 in s
    ensures s == map[] ==> id == 1
  {
    if s == map[] then 1
    else
      LargestKeyExists(s.Keys);
      var m :| IsLargest(m, s.Keys);
      m + 1
  }

  /** The row the `select` route builds from a detail response: title as
      given, year before the first '-', overview cut to the description
      limit, poster path behind the image base, and no category yet. */
  function NewMovie(id: int, d: Details): (m: Movie)
    ensures m.id == id && m.title == d.title && m.category == None
    ensures '-' !in m.year && m.year <= d.releaseDate
    ensures |m.year| < |d.releaseDate| ==> d.releaseDate[|m.year|] == '-'
    ensures |m.description| <= DescriptionLimit + |Ellipsis|
    ensures |d.overview| <= DescriptionLimit ==> m.description == d.overview
    ensures |d.overview| > DescriptionLimit ==> m.description == d.overview[..DescriptionLimit] + Ellipsis
    ensures PosterPathOf(m.imageUrl) == Some(d.posterPath)
  {
    Movie(id, d.title, Year(d.releaseDate), None, Description(d.overview), PosterUrl(d.posterPath))
  }

  /** The row stored under `id`, or NotFound (`get_or_404`). */
  function Lookup(s: Store, id: int): (r: Result<Movie, Error>)
    ensures r.Success? <==> id in s
    ensures r.Success? ==> r.value == s[id]
    ensures r.Failure? ==> r.error == NotFound
  {
    if id in s then Success(s[id]) else Failure(NotFound)
  }

  /** The `select` route's insert: a taken title fails with DuplicateTitle
      and adds nothing; otherwise exactly one row, under a fresh key and
      without a category, is added and every other row stays as it was. */
  function Select(s: Store, d: Details): (r: Result<Inserted, Error>)
    ensures r.Failure? <==> TitleTaken(s, d.title)
    ensures r.Failure? ==> r.error == DuplicateTitle
    ensures r.Success? ==>
      && r.value.id !in s
      && r.value.store.Keys == s.Keys + {r.value.id}
      && r.value.store[r.value.id] == NewMovie(r.value.id, d)
      && (forall k :: k in s ==> r.value.store[k] == s[k])
  {
    if TitleTaken(s, d.title) then Failure(DuplicateTitle)
    else
      var id := NextId(s);
      Success(Inserted(s[id := NewMovie(id, d)], id))
  }

  /** The `edit` route on POST: a missing key is NotFound; otherwise only
      that row's category changes, to `c`. */
  function Edit(s: Store, id: int, c: Category): (r: Result<Store, Error>)
    ensures r.Failure? <==> id !in s
    ensures r.Failure? ==> r.error == NotFound
    ensures r.Success? ==>
      && r.value.Keys == s.Keys
      && r.value[id].category == Some(c)
      && r.value[id] == s[id].(category := r.value[id].category)
      && (forall k :: k in s && k != id ==> r.value[k] == s[k])
  {
    if id !in s then Failure(NotFound)
    else Success(s[id := s[id].(category := Some(c))])
  }

  /** The `delete` route: a missing key is NotFound; otherwise exactly that
      row is removed, so a later lookup of the key is NotFound. */
  function Delete(s: Store, id: int): (r: Result<Store, Error>)
    ensures r.Failure? <==> id !in s
    ensures r.Failure? ==> r.error == NotFound
    ensures r.Success? ==>
      && r.value.Keys == s.Keys - {id}
      && Lookup(r.value, id) == Failure(NotFound)
      && (forall k :: k in r.value ==> r.value[k] == s[k])
  {
    if id !in s then Failure(NotFound)
    else Success(s - {id})
  }

  /** The store a request leaves behind: the new one on success, the old one on failure. */
  function After(s: Store, r: Result<Store, Error>): (s': Store)
    ensures r.Failure? ==> s' == s
  {
    if r.Success? then r.value else s
  }

  /** The empty table satisfies the invariant. */
  lemma EmptyValid()
    ensures Valid(map[])
  {
  }

  /** A successful insert keeps the invariant; a failed one adds nothing. */
  lemma SelectPreservesValid(s: Store, d: Details)
    requires Valid(s)
    ensures Select(s, d).Success? ==> Valid(Select(s, d).value.store)
  {
    if Select(s, d).Success? {
      var s' := Select(s, d).value.store;
      var id := Select(s, d).value.id;
      assert !TitleTaken(s, d.title);
    }
  }

  /** Editing keeps the invariant. */
  lemma EditPreservesValid(s: Store, id: int, c: Category)
    requires Valid(s)
    ensures Valid(After(s, Edit(s, id, c)))
  {
  }

  /** Deleting keeps the invariant. */
  lemma DeletePreservesValid(s: Store, id: int)
    requires Valid(s)
    ensures Valid(After(s, Delete(s, id)))
  {
  }

  /** A second movie with an inserted movie's title is refused, and the
      first one is still there. */
  lemma DuplicateRejected(s: Store, d: Details, d': Details)
    requires Select(s, d).Success?
    requires d'.title == d.title
    ensures Select(Select(s, d).value.store, d') == Failure(DuplicateTitle)
    ensures Lookup(Select(s, d).value.store, Select(s, d).value.id).Success?
  {
    var ins := Select(s, d).value;
    assert ins.store[ins.id].title == d'.title;
  }

  /** Deleting the row an insert just added restores the store. */
  lemma SelectThenDelete(s: Store, d: Details)
    requires Select(s, d).Success?
    ensures Delete(Select(s, d).value.store, Select(s, d).value.id) == Success(s)
  {
    var ins := Select(s, d).value;
    assert ins.store - {ins.id} == s;
  }

  /** A second edit of the same row overrides the first. */
  lemma EditLastWins(s: Store, id: int, a: Category, b: Category)
    requires Edit(s, id, a).Success?
    ensures Edit(Edit(s, id, a).value, id, b) == Edit(s, id, b)
  {
    var s' := Edit(s, id, a).value;
    var m := s[id].(category := Some(b));
    assert s'[id].(category := Some(b)) == m;
    assert s'[id := m] == s[id := m];
  }

  /** Editing never changes which rows exist, only what one of them is filed under. */
  lemma EditKeepsLookups(s: Store, id: int, c: Category, k: int)
    requires Edit(s, id, c).Success?
    ensures Lookup(Edit(s, id, c).value, k).Success? <==> Lookup(s, k).Success?
    ensures k != id ==> Lookup(Edit(s, id, c).value, k) == Lookup(s, k)
  {
  }
}
