# Movie catalogue: a Dafny model

A model of the logic in a small Flask catalogue of seasonal films. A user
searches the movie-metadata service (TMDB) for a title and picks a result.
The `select` route then builds a `Movie` row from the service's fields and
stores it at once, with no category. The `edit` route later files the movie
under one of seven seasonal categories. `films` lists every movie by category
and then title. `search` ("surprise me") shows up to three random movies of
one category on a page themed with that category's background image.
`delete` removes a movie.

The model is functional. The movie table is a `map<int, Movie>` from primary
key to row. Its invariant (`Catalogue.Valid`) says each row sits under its
own key and no two rows share a title. Each route's effect on the table is a
pure function that returns the new table or the error the route reports.

| module | file | models |
|---|---|---|
| `Wrappers` | wrappers.dfy | `Option` and `Result` |
| `Text` | text.dfy | Python's `str.split` on one character; code-point string ordering |
| `Metadata` | metadata.dfy | year, description and poster URL derived from a detail response |
| `Categories` | categories.dfy | the seven categories, their names, the background image path |
| `Catalogue` | catalogue.dfy | `Movie`, the table, `select`/`edit`/`delete`/`get_or_404` |
| `Listing` | listing.dfy | the `films` ordering and the `search` sample |

Modelling choices:
- The key of a new row follows SQLite's rule for an `INTEGER PRIMARY KEY`:
  one more than the largest key in use, or 1 in an empty table
  (`Catalogue.NextId`).
- A failed request returns `Failure(NotFound)` or `Failure(DuplicateTitle)`.
- In this version of `main.py`, inserting a duplicate title raises the
  database's integrity error, and nothing catches it. The request fails and
  no row is added. The model returns `DuplicateTitle`, with no user-facing
  message.
- The year is the text before the first `-` of the release date, whatever
  its length; a full ISO date gives four digits (`Metadata.YearOfIsoDate`).
- The order of `ORDER BY category, title` compares text by code point, as
  SQLite's default BINARY collation does. Where rows with no category go
  depends on the database, so it is the `nullsFirst` parameter (SQLite puts
  them first).
- The random order of `search` is the verifier's arbitrary choice (`:|`) in
  `Listing.Search`. The contract covers every possible choice.

## Model

| member | source | states |
|---|---|---|
| `Text.Split` | main.py:87 | Python's `split('-')` result: at least one piece, no piece contains the separator, and joining the pieces with it gives the input back |
| `Text.SplitUnique` | main.py:87 | the split is the only separator-free decomposition that joins back to the input |
| `Text.StrLe` | main.py:62 | the text order the database sorts titles and category names by: character by character on code points, a proper prefix first |
| `Text.StrLeTotal` | main.py:62 | any two titles or category names can be compared by the database's text order |
| `Text.StrLeAntisymmetric` | main.py:62 | two strings that each sort at or before the other are equal |
| `Text.StrLeTransitive` | main.py:62 | the text order is transitive |
| `Text.StrLtAt` | main.py:62 | strings that agree before some position and differ there are ordered by their characters at that position, strictly |
| `Text.StrLePrefix` | main.py:62 | a prefix sorts at or before every string it starts |
| `Metadata.Year` | main.py:87 | the year contains no `-`, is a prefix of the release date, and stops at the first `-` or at the end |
| `Metadata.YearUnique` | main.py:87 | any prefix that stops at the first `-` or at the end is the year, so the year is fully determined |
| `Metadata.YearOfIsoDate` | main.py:86-87 | a full date `2003-07-09` yields the year `2003` |
| `Metadata.Description` | main.py:89 | an overview of at most 245 characters is kept whole; a longer one becomes its first 245 characters plus `..`; the result has at most 247 characters and starts with the overview's first min(len, 245) characters |
| `Metadata.DescriptionIdempotent` | main.py:89 | describing a description changes nothing |
| `Metadata.DescriptionUnchangedIff` | main.py:89 | the description equals the overview exactly when the overview has at most 245 characters, or is 247 characters long and already ends in `..` |
| `Metadata.PosterUrl` | main.py:88 | the poster URL starts with the image base and what follows the base is the poster path |
| `Metadata.PosterPathOf` | main.py:88 | recovers the poster path from exactly the URLs that start with the image base |
| `Metadata.PosterUrlRoundTrip` | main.py:88 | recovering the path from a built URL gives the poster path back |
| `Metadata.PosterPathRoundTrip` | main.py:88 | rebuilding a URL from its recovered path gives the URL back |
| `Categories.Name` | forms.py:28-34 | the text a category is stored as, one of the seven choice values; never empty |
| `Categories.Parse` | forms.py:8-17 | a submitted choice is accepted exactly when it is one of the seven names, and maps to the category with that name |
| `Categories.ParseName` | forms.py:9-15 | parsing a category's name gives the category back |
| `Categories.NameInjective` | forms.py:9-15 | distinct categories have distinct names |
| `Categories.Slug` | main.py:114 | the file-name part of a background: the category's name, except `christmas-rom-com` for "Christmas rom-com" |
| `Categories.BackgroundPath` | main.py:114 | every background lies under `/static/images/` and ends in `-background.png`; between them is the category's name, except for "Christmas rom-com", which uses `christmas-rom-com` |
| `Categories.BackgroundPathInjective` | main.py:114 | different categories get different background images |
| `Catalogue.Valid` | main.py:39-40 | the table invariant: every row sits under its own primary key and no two rows share a title |
| `Catalogue.TitleTaken` | main.py:40 | some stored row already carries the title, the condition under which the unique constraint refuses an insert |
| `Catalogue.NextId` | main.py:39 | a new row's key is one more than the largest key in use (it is above every key in use, and the key just below it is in use), and 1 in an empty table |
| `Catalogue.NewMovie` | main.py:84-90 | the new row has the given title and no category; its year has no `-`, is a prefix of the release date and stops exactly at the first `-` or at the end; its description is the overview when that has at most 245 characters and otherwise the first 245 characters followed by `..`, so at most 247 characters; its poster path can be recovered from its image URL |
| `Catalogue.Lookup` | main.py:100 | lookup of a key succeeds exactly when it is in the table, returns that row, and fails with NotFound otherwise |
| `Catalogue.Select` | main.py:84-92 | the insert fails with DuplicateTitle exactly when the title is taken; otherwise it adds exactly one row under a fresh key, built from the details, and leaves every other row alone |
| `Catalogue.Edit` | main.py:100-103 | the edit fails with NotFound exactly when the key is missing; otherwise only that row's category changes, to the chosen one, and the set of keys stays the same |
| `Catalogue.Delete` | main.py:121-124 | the delete fails with NotFound exactly when the key is missing; otherwise exactly that row is removed, other rows are unchanged, and a later lookup of the key is NotFound |
| `Catalogue.EmptyValid` | main.py:38-44 | an empty table satisfies the invariant |
| `Catalogue.SelectPreservesValid` | main.py:40 | a successful insert keeps keys matching rows and titles unique |
| `Catalogue.EditPreservesValid` | main.py:100-103 | editing keeps the invariant |
| `Catalogue.DeletePreservesValid` | main.py:121-124 | deleting keeps the invariant |
| `Catalogue.DuplicateRejected` | main.py:40 | after a movie is inserted, a second movie with its title is refused and the first is still found |
| `Catalogue.SelectThenDelete` | main.py:121-124 | deleting the row an insert just added restores the previous table |
| `Catalogue.EditLastWins` | main.py:102 | a second edit of a row overrides the first |
| `Catalogue.EditKeepsLookups` | main.py:100-103 | an edit changes no lookup outcome, and no other row |
| `Listing.NameBefore` | main.py:62 | one present category sorts strictly before another when its name sorts first |
| `Listing.CategoryBefore` | main.py:62 | the order on optional categories: present ones by name, absent ones first or last as the `nullsFirst` parameter says |
| `Listing.RowLe` | main.py:62 | `ORDER BY category, title`: rows ordered by category, and by title within one category |
| `Listing.CategoryBeforeTotal` | main.py:62 | of two different categories (absent included), exactly one sorts first |
| `Listing.CategoryBeforeTransitive` | main.py:62 | the category order is transitive |
| `Listing.RowLeTotal` | main.py:62 | any two rows can be ordered by (category, title) one way or the other |
| `Listing.RowLeTransitive` | main.py:62 | ordering by (category, title) is transitive |
| `Listing.InsertRow` | main.py:62 | placing a row into a sorted listing keeps it sorted and adds exactly that row |
| `Listing.SortRows` | main.py:62 | the sorted rows are a permutation of the input, ordered by (category, title) |
| `Listing.SortedPairwise` | main.py:62 | in a sorted listing, every row sorts at or before every later row |
| `Listing.CategoryListingOrder` | main.py:62 | the categories are listed Autumn, Christmas, Christmas rom-com, Halloween, Spring, Summer, Winter |
| `Listing.SpringBeforeSummer` | main.py:62 | "Spring" sorts before "Summer" and not after it |
| `Listing.ListingExample` | main.py:62 | ("B", Summer), ("A", Spring), ("C", Spring) are listed as A, C, B |
| `Listing.Films` | main.py:60-63 | the listing holds every stored row exactly once, and every row sorts at or before every later row by (category, title) |
| `Listing.Matching` | main.py:113 | the keys whose rows are filed under the chosen category; rows without a category never match |
| `Listing.Search` | main.py:108-115 | the result has min(3, number of matching rows) movies, so none when nothing matches; each is a stored row filed under the chosen category; none appears twice; the background is the category's image |

## Left out

- Routing, `request.args`, redirects, templates, and the `home`, `add` and `result` pages are web plumbing with no logic.
- The `select` route with no `id` argument falls through and returns nothing. That is routing, not a table effect, so it is not modelled.
- The two HTTP calls to the metadata service and the JSON decoding (main.py:71-72, 81-83) are network I/O. The model takes title, release date, overview and poster path as strings. It does not model missing keys or JSON `null`; a null poster path would make the URL end in `None`.
- Session and commit mechanics, `create_all`, and the `String(250)` column widths are database behaviour the code does not define.
- Catalogue.NextId: SQLite's fallback is left out. When the largest key is the top 64-bit value, SQLite picks a random unused key instead. Other databases' key sequences are not modelled either.
- Listing.Films: compares text by code point, as SQLite's BINARY collation does. Other collations (case-insensitive, locale-aware) are not modelled. Where rows without a category go is the `nullsFirst` parameter, not a fixed rule.
- Listing.Search: states which results are possible, not how likely each is. `ORDER BY random()` is uniform in the database, but the model only says the choice is arbitrary.
- Catalogue.Edit: takes one of the seven categories. The `edit` route never validates its form, so a hand-made POST could store any string as the category. That case is not modelled.
- Duplicate-title errors: in this version of `main.py` the database error propagates uncaught. The model returns `DuplicateTitle` and adds no row, and does not model the HTTP 500 response.
- The authentication version of the application (users, register, login, logout) is not part of this model.
- Environment configuration, `Bootstrap5`, the secret key and the API headers (main.py:12-25) are configuration, not logic.
