# Vidly movie catalog page: a Dafny model

This project models the movie catalog page of the Vidly demo application and
the pager below its table.

- **The page** (`Movies.MoviesPage`) holds the movie list, the current page and
  the page size. Each movie is a service record plus a `fullHeart` flag.
- **Its handlers** change that state:
  - `handleDelete` drops the movies with a given `_id`.
  - `handleHeartClick` replaces one entry with a copy whose heart is inverted.
  - `handlePageClick` sets the page.
- **Its size message** reports the number of movies.
- **Its render** shows a text for an empty list, and otherwise the size
  message and a pager that is handed the length of the whole list. It is
  modelled both as written and with its empty-list text corrected.
- **The pager** (module `Pagination`) is pure. It covers the number of pages,
  the early exit for a single page, the page range, the class that marks the
  current page, and the page number a click reports.

Modules:

- `JsValues`: `Option`, standing for a JavaScript value that may be `undefined`.
- `Decimal`: the decimal text a template literal gives a count, and its parse.
- `Pagination`: `vidly/src/components/common/pagination.jsx`, as functions and lemmas.
- `Movies`: `vidly/src/components/movies.jsx`. It has record datatypes and the
  functions that specify the list operations. The class `MoviesPage` has the
  fields `movies`, `headerKeys`, `currentPage` and `pageSize`. Its handler
  methods are proved against those functions.

Notes on how the model relates to the code:

- `indexOf` compares object identity. The model compares record values: the
  first entry equal to the clicked movie is the one replaced.
- When `indexOf` gives -1, the code assigns to the property `-1` of the copied
  array. That property is not an element, so the list of elements is
  unchanged. The model treats it as a no-op.
- `handleDelete` keeps every movie whose `_id` differs from the argument's
  `_id`. If several movies shared an id, it would drop all of them, not just
  one. The key is an `Option`: a movie argument gives `Some(_id)`, and an
  argument without `_id` gives `None`.
- `Math.ceil(itemsCount / pageSize)` is integer ceiling division with
  `pageSize > 0`. `_.range(1, pagesCount + 1)` is the list `1..pagesCount`,
  which is empty for zero pages.
- The required number props become types. `itemsCount` is a `nat`, because the
  only caller passes a list length. `pageSize` is a `nat` with `pageSize > 0`.
  `currentPage` is an `int`, because the page handler does no range check.

## Model

| member | source | states |
|---|---|---|
| `Movies.WithEmptyHeart` | vidly/src/components/movies.jsx:9-11 | the copy has an empty heart, and stripping the flag gives back the service record |
| `Movies.WithEmptyHeartOfStrip` | vidly/src/components/movies.jsx:10 | a movie with an empty heart is its service record with an empty heart added (inverse direction) |
| `Movies.InitialMovies` | vidly/src/components/movies.jsx:8-11 | the initial list has one entry per service movie, in order; each heart is empty and all other fields are copied unchanged |
| `Movies.MoviesPage.constructor` | vidly/src/components/movies.jsx:8-15 | initial state: the initial list, the header keys, `currentPage` 1 and `pageSize` 4 |
| `Movies.Delete` | vidly/src/components/movies.jsx:19 | the new length is the old length minus the number of movies with the key; a movie is kept exactly when it was in the list and its `_id` differs from the key |
| `Movies.DeleteKeepsOrder` | vidly/src/components/movies.jsx:19 | the kept movies are a subsequence of the old list, so their relative order is unchanged |
| `Movies.DeleteAppend` | vidly/src/components/movies.jsx:19 | deleting from a concatenation deletes from each part in place |
| `Movies.DeleteAbsentIsNoOp` | vidly/src/components/movies.jsx:19 | deleting a key no movie has leaves the list unchanged |
| `Movies.DeleteUniqueRemovesOne` | vidly/src/components/movies.jsx:17-20 | with unique ids, deleting the id of entry k gives the list with exactly entry k removed |
| `Movies.DeleteClickedMovieRemovesIt` | vidly/src/components/movies.jsx:17-20 | handing the handler a movie from the list removes that movie and shortens the list |
| `Movies.DeleteButtonClickKeepsEveryMovie` | vidly/src/components/movies.jsx:76 | the Delete button passes the click event, whose `_id` is undefined, so a click removes nothing |
| `Movies.MoviesPage.HandleDelete` | vidly/src/components/movies.jsx:17-20 | the list becomes `Delete(old list, movie's _id)`; `currentPage`, `pageSize` and the header keys are unchanged (no reset to page 1) |
| `Movies.Flip` | vidly/src/components/movies.jsx:25-26 | the copy has the opposite heart, and every other field is unchanged |
| `Movies.IndexOf` | vidly/src/components/movies.jsx:24 | -1 exactly when the movie is absent; otherwise a position holding it with no earlier occurrence |
| `Movies.Toggled` | vidly/src/components/movies.jsx:22-28 | the length is kept; an absent movie changes nothing; otherwise only the first entry equal to the movie is replaced, by its flipped copy |
| `Movies.ToggledKeepsIds` | vidly/src/components/movies.jsx:22-28 | a heart click keeps every id in place and preserves id uniqueness |
| `Movies.ToggleTwiceRestores` | vidly/src/components/movies.jsx:22-28 | clicking a movie's heart, then the heart of the updated entry, restores the original list (ids unique) |
| `Movies.MoviesPage.HandleHeartClick` | vidly/src/components/movies.jsx:22-28 | the list becomes `Toggled(old list, movie)`; `currentPage`, `pageSize` and the header keys are unchanged |
| `Movies.MoviesPage.HandlePageClick` | vidly/src/components/movies.jsx:30-32 | `currentPage` becomes the given page, with no range check; the list, `pageSize` and the header keys are unchanged |
| `Movies.SizeMessage` | vidly/src/components/movies.jsx:34-37 | the message is the "no movies" text exactly when the count is zero |
| `Movies.SizeMessageRoundTrip` | vidly/src/components/movies.jsx:34-37 | reading the count back out of the message gives exactly the count; the reader accepts only digits without a leading zero |
| `Movies.SizeMessageInjective` | vidly/src/components/movies.jsx:34-37 | two lists get the same message exactly when their lengths are equal |
| `Movies.MoviesPage.PrintSizeMsg` | vidly/src/components/movies.jsx:34-37 | the message is for the length of the whole list, and is the "no movies" text exactly when the list is empty |
| `Movies.MoviesPage.Render` | vidly/src/components/movies.jsx:39-93 | as written: an empty list shows only the text "There are no movies i the database."; otherwise the size message is shown, and the pager gets the whole list's length, `pageSize` and `currentPage` |
| `Movies.RenderEmptyTextDiffers` | vidly/src/components/movies.jsx:43 | for an empty list, the text render shows is not the size message for that list |
| `Movies.MoviesPage.RenderIntended` | vidly/src/components/movies.jsx:34-43 | render with the empty-list text corrected: an empty list shows the size message; a non-empty list shows the size message and a pager for the whole list |
| `Movies.PagerCountsWholeList` | vidly/src/components/movies.jsx:88-93 | whether the pager shows, how many links it has and their pages depend only on the list length and page size, not on the current page |
| `Decimal.NatToString` | vidly/src/components/movies.jsx:37 | the count's text is non-empty, all digits, and has no leading zero |
| `Decimal.ParseNatToString` | vidly/src/components/movies.jsx:37 | parsing the count's text gives the count |
| `Decimal.NatToStringInjective` | vidly/src/components/movies.jsx:37 | different counts have different texts |
| `Pagination.PagesCount` | vidly/src/components/common/pagination.jsx:8 | zero pages exactly for zero items; otherwise `(n-1)*pageSize < itemsCount <= n*pageSize`, so n is the ceiling of itemsCount / pageSize |
| `Pagination.PagesCountIsUnique` | vidly/src/components/common/pagination.jsx:8 | no page count other than `PagesCount` meets those ceiling bounds |
| `Pagination.Pages` | vidly/src/components/common/pagination.jsx:10 | the list has length `pagesCount`, and its i-th element is i + 1 |
| `Pagination.PagesAreTheRange` | vidly/src/components/common/pagination.jsx:10 | the page list is strictly increasing (so it has no duplicates) and holds exactly the numbers 1..pagesCount |
| `Pagination.ActivateCurrentPage` | vidly/src/components/common/pagination.jsx:12-15 | the result is "page-item active" when the page is the current page, and undefined otherwise |
| `Pagination.Link` | vidly/src/components/common/pagination.jsx:23-26 | the link for a page shows that page, is active exactly when that page is current, and its click reports that page |
| `Pagination.Render` | vidly/src/components/common/pagination.jsx:8-26 | it renders nothing exactly when there is one page; otherwise there is one link per page in order, each link's click reports its own page, and a link is active exactly when its page is current |
| `Pagination.HiddenIffOnePage` | vidly/src/components/common/pagination.jsx:8-9 | the pager is hidden exactly when there are between 1 and `pageSize` items |
| `Pagination.NoItemsNoLinks` | vidly/src/components/common/pagination.jsx:8-10 | zero items are not special-cased: the pager renders with an empty link list |
| `Pagination.ActiveLink` | vidly/src/components/common/pagination.jsx:12-25 | at most one link is active, and one is active exactly when the current page is in 1..pagesCount |
| `Pagination.ClickedPageBecomesActive` | vidly/src/components/common/pagination.jsx:23-26 | a click on link k reports page k + 1; with that page current, link k is the only active link |

## Left out

- The table rows: `paginate` from `vidly/src/utils/paginate` is not part of this model, so the model does not say which movies a page shows.
- `getMovies` from `vidly/src/services/fakeMovieService` is not part of this model. The constructor takes its result as an arbitrary sequence.
- JSX markup, CSS classes other than the pager's `page-item active`, inline styles and the table header rendering: presentation only. `headerKeys` is kept as a constant field that no handler changes.
- `setState` is asynchronous and batched in React. Each handler is modelled as replacing its fields at once.
- Object identity: `indexOf` finds an entry by reference. The model finds it by value. The two differ only when two entries are equal field by field.
- `Movies.ToggleTwiceRestores`: requires unique ids, which the data service is expected to provide. Without them, the second click could hit an earlier entry equal to the flipped copy.
- `Pagination.Render`: a `pageSize` that is zero, negative or fractional, a negative or fractional `itemsCount`, and a `currentPage` that is not an integer are not modelled. JavaScript would yield `Infinity`, `NaN` or a descending lodash range for these. The only caller passes a list length, the constant 4, and the page a link reported.
- `dailyRentalRate` is a `real`, because the page only copies it. Floating-point behaviour is not modelled.
- Category filtering, search and sorting are absent from `movies.jsx` as it stands, so they are not modelled.
- The heart icon (`vidly/src/components/common/heart.jsx`), the other common widgets, the app shell, the navigation bars, the counter demos, the context demo and the logging service are not part of this model: they hold no state or data logic.

## Findings

| source | as written | input that shows it | evidently intended | confidence | as-written member | corrected member |
|---|---|---|---|---|---|---|
| vidly/src/components/movies.jsx:76 | `onClick={this.handleDelete}` passes the click event, whose `_id` is undefined, so the filter keeps every movie | any non-empty list; click Delete on any row | pass the row's movie, so that the handler removes it | high; not executed | `Movies.DeleteButtonClickKeepsEveryMovie` | `Movies.DeleteClickedMovieRemovesIt` |
| vidly/src/components/movies.jsx:43 | the empty-list text is "There are no movies i the database." | an empty movie list | "There are no movies in the database.", the same text `printSizeMsg` gives | high; not executed | `Movies.RenderEmptyTextDiffers` | `Movies.MoviesPage.RenderIntended` |
