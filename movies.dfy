/**
 * The movie catalog page: the list of movies with their heart flags, the
 * current page and the page size, the handlers that change them, the size
 * message, and what the page hands to the pager.
 */
module Movies {
  import opened JsValues
  import Decimal
  import Pagination

  datatype Genre = Genre(id: string, name: string)

  /** A movie as the movie service returns it. */
  datatype ServiceMovie = ServiceMovie(
    id: string, title: string, genre: Genre, numberInStock: int, dailyRentalRate: real)

  /** A movie as the page keeps it: the service's fields plus the heart flag. */
  datatype Movie = Movie(
    id: string, title: string, genre: Genre, numberInStock: int, dailyRentalRate: real,
    fullHeart: bool)

  /** The movie without its heart flag. */
  function Strip(m: Movie): ServiceMovie {
    ServiceMovie(m.id, m.title, m.genre, m.numberInStock, m.dailyRentalRate)
  }

  /** `{ ...movie, fullHeart: false }` */
  function WithEmptyHeart(m: ServiceMovie): (r: Movie)
    ensures !r.fullHeart && Strip(r) == m
  {
    Movie(m.id, m.title, m.genre, m.numberInStock, m.dailyRentalRate, false)
  }

  /** A movie whose heart is empty is the service's movie with an empty heart added. */
  lemma WithEmptyHeartOfStrip(m: Movie)
    requires !m.fullHeart
    ensures WithEmptyHeart(Strip(m)) == m
  {
  }

  /** The initial list: every service movie, in order, with its heart empty and its other fields copied. */
  function InitialMovies(source: seq<ServiceMovie>): (movies: seq<Movie>)
    ensures |movies| == |source|
    ensures forall i :: 0 <= i < |movies| ==> !movies[i].fullHeart && Strip(movies[i]) == source[i]
  {
    seq(|source|, i requires 0 <= i < |source| => WithEmptyHeart(source[i]))
  }

  const HeaderKeys: seq<string> := ["Title", "Genre", "Stock", "Rate", "", ""]
  const InitialPageSize: nat := 4

  /** No two movies share an id. */
  ghost predicate UniqueIds(movies: seq<Movie>) {
    forall i, j :: 0 <= i < j < |movies| ==> movies[i].id != movies[j].id
  }

  // ---------------------------------------------------------------- delete

  /** The key a delete compares against: the argument's `_id`, `undefined` when it has none. */
  function KeyOf(m: Movie): Option<string> {
    Some(m.id)
  }

  /** The number of movies whose `_id` equals `key`. */
  function Matches(movies: seq<Movie>, key: Option<string>): (n: nat)
    ensures n <= |movies|
  {
    if movies == [] then 0
    else (if KeyOf(movies[0]) == key then 1 else 0) + Matches(movies[1..], key)
  }

  /** `movies.filter((_movie) => _movie._id !== key)` */
  function Delete(movies: seq<Movie>, key: Option<string>): (kept: seq<Movie>)
    ensures |kept| == |movies| - Matches(movies, key)
    ensures forall m :: m in kept <==> m in movies && KeyOf(m) != key
  {
    if movies == [] then []
    else if KeyOf(movies[0]) != key then [movies[0]] + Delete(movies[1..], key)
    else Delete(movies[1..], key)
  }

  /** `sub` is `s` with some elements left out and the rest in their order. */
  predicate IsSubsequence(sub: seq<Movie>, s: seq<Movie>)
    decreases |s|
  {
    if sub == [] then true
    else if s == [] then false
    else if sub[0] == s[0] then IsSubsequence(sub[1..], s[1..])
    else IsSubsequence(sub, s[1..])
  }

  lemma {:induction false} SubsequenceOfTail(sub: seq<Movie>, x: Movie, s: seq<Movie>)
    requires IsSubsequence(sub, s)
    ensures IsSubsequence(sub, [x] + s)
    decreases |s|, 1
  {
    if sub != [] && sub[0] == x {
      // The greedy match takes `x`; the rest must then fit into `s`.
      assert ([x] + s)[1..] == s;
      SubsequenceDropHead(sub, s);
    } else {
      assert ([x] + s)[1..] == s;
    }
  }

  lemma {:induction false} SubsequenceDropHead(sub: seq<Movie>, s: seq<Movie>)
    requires sub != [] && IsSubsequence(sub, s)
    ensures IsSubsequence(sub[1..], s)
    decreases |s|, 0
  {
    if sub[0] == s[0] {
      SubsequenceOfTail(sub[1..], s[0], s[1..]);
      assert [s[0]] + s[1..] == s;
    } else {
      SubsequenceDropHead(sub, s[1..]);
      SubsequenceOfTail(sub[1..], s[0], s[1..]);
      assert [s[0]] + s[1..] == s;
    }
  }

  /** Deleting keeps the remaining movies in their original relative order. */
  lemma {:induction false} DeleteKeepsOrder(movies: seq<Movie>, key: Option<string>)
    ensures IsSubsequence(Delete(movies, key), movies)
    decreases |movies|
  {
    if movies != [] {
      DeleteKeepsOrder(movies[1..], key);
      var rest := Delete(movies[1..], key);
      if KeyOf(movies[0]) != key {
        assert ([movies[0]] + rest)[1..] == rest;
      } else {
        SubsequenceOfTail(rest, movies[0], movies[1..]);
        assert [movies[0]] + movies[1..] == movies;
      }
    }
  }

  /** Deleting distributes over concatenation: each part is filtered in place. */
  lemma {:induction false} DeleteAppend(a: seq<Movie>, b: seq<Movie>, key: Option<string>)
    ensures Delete(a + b, key) == Delete(a, key) + Delete(b, key)
    decreases |a|
  {
    if a == [] {
      assert a + b == b;
    } else {
      var ab := a + b;
      assert ab[0] == a[0];
      assert ab[1..] == a[1..] + b;
      DeleteAppend(a[1..], b, key);
      if KeyOf(a[0]) != key {
        calc {
          Delete(ab, key);
          [a[0]] + Delete(a[1..] + b, key);
          [a[0]] + (Delete(a[1..], key) + Delete(b, key));
          ([a[0]] + Delete(a[1..], key)) + Delete(b, key);
        }
      }
    }
  }

  /** Deleting a key no movie has changes nothing. */
  lemma {:induction false} DeleteAbsentIsNoOp(movies: seq<Movie>, key: Option<string>)
    requires Matches(movies, key) == 0
    ensures Delete(movies, key) == movies
    decreases |movies|
  {
    if movies != [] {
      DeleteAbsentIsNoOp(movies[1..], key);
      assert [movies[0]] + movies[1..] == movies;
    }
  }

  /** No movie's `_id` is `undefined`. */
  lemma {:induction false} NoMovieMatchesUndefined(movies: seq<Movie>)
    ensures Matches(movies, None) == 0
    decreases |movies|
  {
    if movies != [] {
      NoMovieMatchesUndefined(movies[1..]);
    }
  }

  /**
   * The Delete button hands `handleDelete` the click event, whose `_id` is
   * `undefined`: as wired, a click removes no movie.
   */
  lemma DeleteButtonClickKeepsEveryMovie(movies: seq<Movie>)
    ensures Delete(movies, None) == movies
  {
    NoMovieMatchesUndefined(movies);
    DeleteAbsentIsNoOp(movies, None);
  }

  /** Handing `handleDelete` the row's movie removes that movie and shortens the list. */
  lemma DeleteClickedMovieRemovesIt(movies: seq<Movie>, m: Movie)
    requires m in movies
    ensures m !in Delete(movies, KeyOf(m))
    ensures |Delete(movies, KeyOf(m))| < |movies|
  {
    var k :| 0 <= k < |movies| && movies[k] == m;
    MatchesAtLeastOne(movies, k);
  }

  lemma {:induction false} MatchesAtLeastOne(movies: seq<Movie>, k: nat)
    requires k < |movies|
    ensures Matches(movies, KeyOf(movies[k])) > 0
    decreases k
  {
    if k > 0 {
      MatchesAtLeastOne(movies[1..], k - 1);
    }
  }

  /** With unique ids, deleting a movie's id removes exactly that one movie. */
  lemma {:induction false} DeleteUniqueRemovesOne(movies: seq<Movie>, k: nat)
    requires UniqueIds(movies) && k < |movies|
    ensures Delete(movies, KeyOf(movies[k])) == movies[..k] + movies[k + 1..]
  {
    var x := movies[k];
    var key := KeyOf(x);
    var before, after := movies[..k], movies[k + 1..];
    assert movies == (before + [x]) + after;
    assert Delete([x], key) == [] by {
      assert [x][1..] == [];
    }
    assert forall i :: 0 <= i < |before| ==> before[i].id != x.id by {
      forall i | 0 <= i < |before| ensures before[i].id != x.id {
        assert before[i] == movies[i];
      }
    }
    assert forall i :: 0 <= i < |after| ==> after[i].id != x.id by {
      forall i | 0 <= i < |after| ensures after[i].id != x.id {
        assert after[i] == movies[k + 1 + i];
      }
    }
    NoneMatch(before, key, x.id);
    NoneMatch(after, key, x.id);
    DeleteAbsentIsNoOp(before, key);
    DeleteAbsentIsNoOp(after, key);
    DeleteAppend(before + [x], after, key);
    DeleteAppend(before, [x], key);
    assert Delete(before + [x], key) == before;
  }

  lemma {:induction false} NoneMatch(part: seq<Movie>, key: Option<string>, id: string)
    requires key == Some(id)
    requires forall i :: 0 <= i < |part| ==> part[i].id != id
    ensures Matches(part, key) == 0
    decreases |part|
  {
    if part != [] {
      NoneMatch(part[1..], key, id);
    }
  }

  // ----------------------------------------------------------------- heart

  /** `{ ...movie }` with `fullHeart` inverted. */
  function Flip(m: Movie): (r: Movie)
    ensures r.fullHeart == !m.fullHeart && Strip(r) == Strip(m)
    ensures r != m
  {
    m.(fullHeart := !m.fullHeart)
  }

  /** `movies.indexOf(m)`: the first position holding `m`, or -1. */
  function IndexOf(movies: seq<Movie>, m: Movie): (index: int)
    ensures -1 <= index < |movies|
    ensures index == -1 <==> m !in movies
    ensures index >= 0 ==> movies[index] == m && m !in movies[..index]
  {
    if movies == [] then -1
    else if movies[0] == m then 0
    else
      var j := IndexOf(movies[1..], m);
      assert j >= 0 ==> movies[..j + 1] == [movies[0]] + movies[1..][..j];
      if j == -1 then -1 else j + 1
  }

  /** `i` is the first position of `m` in `movies`. */
  predicate FirstAt(movies: seq<Movie>, m: Movie, i: int) {
    0 <= i < |movies| && movies[i] == m && m !in movies[..i]
  }

  /**
   * The list after a heart click on `m`: the first entry equal to `m` is
   * replaced by a copy with its heart inverted; when no entry equals `m`
   * (indexOf gives -1, and the assignment lands on a property that is not
   * an element) the list is unchanged.
   */
  function Toggled(movies: seq<Movie>, m: Movie): (r: seq<Movie>)
    ensures |r| == |movies|
    ensures m !in movies ==> r == movies
    ensures m in movies ==> exists i :: FirstAt(movies, m, i) && r == movies[i := Flip(m)]
  {
    var index := IndexOf(movies, m);
    if index < 0 then movies
    else
      assert FirstAt(movies, m, index);
      movies[index := Flip(m)]
  }

  /** A heart click keeps every id in its place, so unique ids stay unique. */
  lemma ToggledKeepsIds(movies: seq<Movie>, m: Movie)
    ensures forall i :: 0 <= i < |movies| ==> Toggled(movies, m)[i].id == movies[i].id
    ensures UniqueIds(movies) ==> UniqueIds(Toggled(movies, m))
  {
  }

  /** Clicking the heart of an entry, then the heart of the updated entry, restores the list. */
  lemma ToggleTwiceRestores(movies: seq<Movie>, m: Movie)
    requires UniqueIds(movies) && m in movies
    ensures Toggled(Toggled(movies, m), Flip(m)) == movies
  {
    var i := IndexOf(movies, m);
    var once := movies[i := Flip(m)];
    assert Toggled(movies, m) == once;
    var j := IndexOf(once, Flip(m));
    assert j != -1 by {
      assert once[i] == Flip(m);
    }
    assert Toggled(once, Flip(m)) == once[i := Flip(Flip(m))];
  }

  // ------------------------------------------------------------- messages

  const NoMoviesMessage: string := "There are no movies in the database."
  const ShowingPrefix: string := "Showing "
  const ShowingSuffix: string := " movies in the database."

  /** `printSizeMsg` for a list of `count` movies. */
  function SizeMessage(count: nat): (msg: string)
    ensures (count == 0) == (msg == NoMoviesMessage)
  {
    if count == 0 then NoMoviesMessage
    else
      var msg := ShowingPrefix + Decimal.NatToString(count) + ShowingSuffix;
      assert msg[0] != NoMoviesMessage[0];
      msg
  }

  /** Reads the number of movies back out of a size message, whose count has no leading zero; `None` for any other text. */
  function ShownCount(msg: string): Option<nat> {
    if msg == NoMoviesMessage then Some(0)
    else if |msg| > |ShowingPrefix| + |ShowingSuffix|
         && msg[..|ShowingPrefix|] == ShowingPrefix
         && msg[|msg| - |ShowingSuffix|..] == ShowingSuffix
         && Decimal.AllDigits(msg[|ShowingPrefix|..|msg| - |ShowingSuffix|])
         && (|msg| - |ShowingSuffix| - |ShowingPrefix| == 1 || msg[|ShowingPrefix|] != '0')
    then Some(Decimal.ParseDigits(msg[|ShowingPrefix|..|msg| - |ShowingSuffix|]))
    else None
  }

  /** The size message states the number of movies: reading it back gives that number. */
  lemma SizeMessageRoundTrip(count: nat)
    ensures ShownCount(SizeMessage(count)) == Some(count)
  {
    if count > 0 {
      var digits := Decimal.NatToString(count);
      var msg := SizeMessage(count);
      assert msg[..|ShowingPrefix|] == ShowingPrefix;
      assert msg[|msg| - |ShowingSuffix|..] == ShowingSuffix;
      assert msg[|ShowingPrefix|..|msg| - |ShowingSuffix|] == digits;
      Decimal.ParseNatToString(count);
    }
  }

  /** Different list lengths give different size messages. */
  lemma SizeMessageInjective(a: nat, b: nat)
    ensures SizeMessage(a) == SizeMessage(b) <==> a == b
  {
    SizeMessageRoundTrip(a);
    SizeMessageRoundTrip(b);
  }

  /** The text `render` shows instead of the table when the list is empty. */
  const EmptyCatalogMessageAsWritten: string := "There are no movies i the database."

  // ------------------------------------------------------------- the page

  /** What `render` puts on the page, apart from the table rows. */
  datatype View =
    | NoMovies(message: string)
    | Catalog(sizeMessage: string, pager: Option<seq<Pagination.PageLink>>)

  class MoviesPage {
    var movies: seq<Movie>
    var headerKeys: seq<string>
    var currentPage: int
    var pageSize: nat

    ghost predicate Valid()
      reads this
    {
      pageSize > 0
    }

    /** The initial state: the service's movies with empty hearts, page 1, four movies a page. */
    constructor (source: seq<ServiceMovie>)
      ensures Valid()
      ensures movies == InitialMovies(source)
      ensures headerKeys == HeaderKeys && currentPage == 1 && pageSize == InitialPageSize
    {
      movies := InitialMovies(source);
      headerKeys := HeaderKeys;
      currentPage := 1;
      pageSize := InitialPageSize;
    }

    /** `handleDelete(movie)`: drop every movie with the argument's `_id`; the page is not reset. */
    method HandleDelete(movie: Movie)
      requires Valid()
      modifies this
      ensures Valid()
      ensures movies == Delete(old(movies), KeyOf(movie))
      ensures currentPage == old(currentPage) && pageSize == old(pageSize) && headerKeys == old(headerKeys)
    {
      movies := Delete(movies, KeyOf(movie));
    }

    /** `handleHeartClick(movie)`: copy the list, replace the entry at `indexOf(movie)` by a copy with its heart inverted. */
    method HandleHeartClick(movie: Movie)
      requires Valid()
      modifies this
      ensures Valid()
      ensures movies == Toggled(old(movies), movie)
      ensures currentPage == old(currentPage) && pageSize == old(pageSize) && headerKeys == old(headerKeys)
    {
      var copied := movies;
      var index := IndexOf(copied, movie);
      if index >= 0 {
        var updated := movie;
        updated := updated.(fullHeart := !updated.fullHeart);
        copied := copied[index := updated];
      }
      movies := copied;
    }

    /** `handlePageClick(page)`: the page is taken as given, without a range check. */
    method HandlePageClick(page: int)
      requires Valid()
      modifies this
      ensures Valid()
      ensures currentPage == page
      ensures movies == old(movies) && pageSize == old(pageSize) && headerKeys == old(headerKeys)
    {
      currentPage := page;
    }

    /** `printSizeMsg()` */
    function PrintSizeMsg(): (msg: string)
      reads this
      ensures SizeMessage(|movies|) == msg
      ensures (|movies| == 0) == (msg == NoMoviesMessage)
    {
      SizeMessage(|movies|)
    }

    /**
     * `render`: an empty list shows only the text of line 43, as written;
     * otherwise the size message and a pager that is handed the length of
     * the whole list.
     */
    function Render(): (view: View)
      reads this
      requires Valid()
      ensures view.NoMovies? <==> |movies| == 0
      ensures view.NoMovies? ==> view.message == EmptyCatalogMessageAsWritten
      ensures view.Catalog? ==> view.sizeMessage == PrintSizeMsg()
      ensures view.Catalog? ==> view.pager == Pagination.Render(|movies|, pageSize, currentPage)
    {
      var count := |movies|;
      if count == 0 then NoMovies(EmptyCatalogMessageAsWritten)
      else Catalog(PrintSizeMsg(), Pagination.Render(count, pageSize, currentPage))
    }

    /** `render` with the empty-list text corrected: every message shown is the size message. */
    function RenderIntended(): (view: View)
      reads this
      requires Valid()
      ensures view.NoMovies? <==> |movies| == 0
      ensures view.NoMovies? ==> view.message == PrintSizeMsg()
      ensures view.Catalog? ==> view.sizeMessage == PrintSizeMsg()
      ensures view.Catalog? ==> view.pager == Pagination.Render(|movies|, pageSize, currentPage)
    {
      var count := |movies|;
      if count == 0 then NoMovies(PrintSizeMsg())
      else Catalog(PrintSizeMsg(), Pagination.Render(count, pageSize, currentPage))
    }
  }

  /** As written, the text `render` shows for an empty list is not the size message for that list. */
  lemma RenderEmptyTextDiffers(page: MoviesPage)
    requires page.Valid() && page.movies == []
    ensures page.Render().NoMovies?
    ensures page.Render().message != page.PrintSizeMsg()
  {
    assert page.Render().message[21] != page.PrintSizeMsg()[21];
  }

  /** The pager's links depend on the length of the whole list and not on the page shown. */
  lemma PagerCountsWholeList(movies: seq<Movie>, pageSize: nat, p: int, q: int)
    requires pageSize > 0
    ensures var a, b := Pagination.Render(|movies|, pageSize, p), Pagination.Render(|movies|, pageSize, q);
            a.Some? == b.Some? &&
            (a.Some? ==> |a.value| == |b.value| == Pagination.PagesCount(|movies|, pageSize) &&
                         forall i :: 0 <= i < |a.value| ==> a.value[i].page == b.value[i].page)
  {
  }
}
