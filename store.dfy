/** The read-books store the chat handlers call into, reduced to what they can
    observe: per chat, an ordered shelf of (title, author, year) rows. The
    database behind it is not part of this model; each operation below does to
    the shelf what its SQL statement does to the chat's rows. */
module BookStore {
  import opened Text

  /** A row of read_books. Author and year are SQL NULL (None) in a row that
      updateReadBooks inserted with its title only; NULL equals nothing, so such
      a row never matches a query or an update on author or year. */
  datatype Record = Record(title: string, author: Option<string>, year: Option<int>)

  /** A row with every column set, as addReadBook and editReadBook write it. */
  function Complete(title: string, author: string, year: int): Record
  {
    Record(title, Some(author), Some(year))
  }

  /** The author as string concatenation shows it: a NULL reads "null". */
  function AuthorText(r: Record): string
  {
    match r.author
    case None => "null"
    case Some(a) => a
  }

  /** The year as ResultSet.getInt reads it: a NULL reads 0. */
  function YearValue(r: Record): int
  {
    match r.year
    case None => 0
    case Some(y) => y
  }

  /** How a row is listed for the edit flow: title, author and year on three lines. */
  function Render(r: Record): string
  {
    r.title + [NL] + AuthorText(r) + [NL] + ShowInt(YearValue(r))
  }

  /** A row listed for the edit flow splits back into its three fields, as
      read, when neither title nor author holds a line break. */
  lemma RenderSplits(r: Record)
    requires NL !in r.title && NL !in AuthorText(r)
    ensures SplitLines(Render(r)) == [r.title, AuthorText(r), ShowInt(YearValue(r))]
  {
    var parts := [r.title, AuthorText(r), ShowInt(YearValue(r))];
    assert JoinLines(parts[2..]) == ShowInt(YearValue(r));
    assert JoinLines(parts[1..]) == AuthorText(r) + [NL] + ShowInt(YearValue(r));
    assert JoinLines(parts) == Render(r);
    SplitJoin(parts);
  }

  function Titles(rows: seq<Record>): (r: seq<string>)
    ensures |r| == |rows|
  {
    if rows == [] then [] else [rows[0].title] + Titles(rows[1..])
  }

  /** Entry i of the title list is the title of row i. */
  lemma {:induction false} TitlesAt(rows: seq<Record>)
    ensures forall i :: 0 <= i < |rows| ==> Titles(rows)[i] == rows[i].title
  {
    if rows != [] {
      TitlesAt(rows[1..]);
    }
  }

  function Rendered(rows: seq<Record>): seq<string>
  {
    seq(|rows|, i requires 0 <= i < |rows| => Render(rows[i]))
  }

  /** SELECT title ... WHERE author = ?: the titles of the rows by that author, in row order. */
  function TitlesByAuthor(rows: seq<Record>, author: string): (r: seq<string>)
    ensures |r| <= |rows|
  {
    if rows == [] then []
    else (if rows[0].author == Some(author) then [rows[0].title] else []) + TitlesByAuthor(rows[1..], author)
  }

  /** SELECT title ... WHERE year = ?: the titles of the rows of that year, in row order. */
  function TitlesByYear(rows: seq<Record>, year: int): (r: seq<string>)
    ensures |r| <= |rows|
  {
    if rows == [] then []
    else (if rows[0].year == Some(year) then [rows[0].title] else []) + TitlesByYear(rows[1..], year)
  }

  /** A title is listed for an author exactly when some row has that title and
      that (non-NULL) author. */
  lemma {:induction false} TitlesByAuthorListed(rows: seq<Record>, author: string, t: string)
    ensures t in TitlesByAuthor(rows, author) <==>
      exists i :: 0 <= i < |rows| && rows[i].title == t && rows[i].author == Some(author)
  {
    if rows != [] {
      TitlesByAuthorListed(rows[1..], author, t);
      if exists i :: 0 <= i < |rows| && rows[i].title == t && rows[i].author == Some(author) {
        var i :| 0 <= i < |rows| && rows[i].title == t && rows[i].author == Some(author);
        if i > 0 {
          assert rows[1..][i - 1] == rows[i];
        }
      }
    }
  }

  /** A title is listed for a year exactly when some row has that title and
      that (non-NULL) year. */
  lemma {:induction false} TitlesByYearListed(rows: seq<Record>, year: int, t: string)
    ensures t in TitlesByYear(rows, year) <==>
      exists i :: 0 <= i < |rows| && rows[i].title == t && rows[i].year == Some(year)
  {
    if rows != [] {
      TitlesByYearListed(rows[1..], year, t);
      if exists i :: 0 <= i < |rows| && rows[i].title == t && rows[i].year == Some(year) {
        var i :| 0 <= i < |rows| && rows[i].title == t && rows[i].year == Some(year);
        if i > 0 {
          assert rows[1..][i - 1] == rows[i];
        }
      }
    }
  }

  /** The author query keeps row order: the listing of a + b is that of a, then that of b. */
  lemma {:induction false} ByAuthorAppend(a: seq<Record>, b: seq<Record>, author: string)
    ensures TitlesByAuthor(a + b, author) == TitlesByAuthor(a, author) + TitlesByAuthor(b, author)
  {
    if a == [] {
      assert a + b == b;
    } else {
      var head := if a[0].author == Some(author) then [a[0].title] else [];
      assert (a + b)[0] == a[0];
      assert (a + b)[1..] == a[1..] + b;
      ByAuthorAppend(a[1..], b, author);
      assert TitlesByAuthor(a + b, author) == head + (TitlesByAuthor(a[1..], author) + TitlesByAuthor(b, author));
    }
  }

  /** The year query keeps row order: the listing of a + b is that of a, then that of b. */
  lemma {:induction false} ByYearAppend(a: seq<Record>, b: seq<Record>, year: int)
    ensures TitlesByYear(a + b, year) == TitlesByYear(a, year) + TitlesByYear(b, year)
  {
    if a == [] {
      assert a + b == b;
    } else {
      var head := if a[0].year == Some(year) then [a[0].title] else [];
      assert (a + b)[0] == a[0];
      assert (a + b)[1..] == a[1..] + b;
      ByYearAppend(a[1..], b, year);
      assert TitlesByYear(a + b, year) == head + (TitlesByYear(a[1..], year) + TitlesByYear(b, year));
    }
  }

  /** UPDATE ... WHERE title, author and year match: every matching row is rewritten. */
  function Replace(rows: seq<Record>, old_: Record, new_: Record): (r: seq<Record>)
    ensures |r| == |rows|
  {
    if rows == [] then [] else [if rows[0] == old_ then new_ else rows[0]] + Replace(rows[1..], old_, new_)
  }

  /** Every row equal to the old one is rewritten to the new one; no other row changes. */
  lemma {:induction false} ReplaceAt(rows: seq<Record>, old_: Record, new_: Record)
    ensures forall i :: 0 <= i < |rows| ==> Replace(rows, old_, new_)[i] == if rows[i] == old_ then new_ else rows[i]
  {
    if rows != [] {
      ReplaceAt(rows[1..], old_, new_);
    }
  }

  /** DELETE ... WHERE title = ? for every stored title missing from `keep`. */
  function KeepTitles(rows: seq<Record>, keep: seq<string>): seq<Record>
  {
    if rows == [] then []
    else (if rows[0].title in keep then [rows[0]] else []) + KeepTitles(rows[1..], keep)
  }

  /** INSERT (title, chat) for every listed title that has no row yet, in list
      order; author and year of such a row are NULL. */
  function AddMissing(rows: seq<Record>, titles: seq<string>): seq<Record>
    decreases titles
  {
    if titles == [] then rows
    else if titles[0] in Titles(rows) then AddMissing(rows, titles[1..])
    else AddMissing(rows + [Record(titles[0], None, None)], titles[1..])
  }

  /** The title-only rows the INSERT pass adds have NULL author and year, so
      neither query ever lists them. */
  lemma {:induction false} AddMissingUnlisted(rows: seq<Record>, titles: seq<string>, author: string, year: int)
    ensures TitlesByAuthor(AddMissing(rows, titles), author) == TitlesByAuthor(rows, author)
    ensures TitlesByYear(AddMissing(rows, titles), year) == TitlesByYear(rows, year)
    decreases titles
  {
    if titles != [] {
      if titles[0] in Titles(rows) {
        AddMissingUnlisted(rows, titles[1..], author, year);
      } else {
        var row := Record(titles[0], None, None);
        ByAuthorAppend(rows, [row], author);
        ByYearAppend(rows, [row], year);
        AddMissingUnlisted(rows + [row], titles[1..], author, year);
      }
    }
  }

  /** A chat's rows after updateReadBooks(chat, titles). */
  function UpdatedShelf(rows: seq<Record>, titles: seq<string>): seq<Record>
  {
    AddMissing(KeepTitles(rows, titles), titles)
  }

  function RemoveAt<T>(s: seq<T>, k: nat): (r: seq<T>)
    requires k < |s|
    ensures |r| == |s| - 1
    ensures forall i :: 0 <= i < k ==> r[i] == s[i]
    ensures forall i :: k <= i < |r| ==> r[i] == s[i + 1]
  {
    s[..k] + s[k + 1..]
  }

  lemma {:induction false} KeepTitlesAppend(a: seq<Record>, b: seq<Record>, keep: seq<string>)
    ensures KeepTitles(a + b, keep) == KeepTitles(a, keep) + KeepTitles(b, keep)
  {
    if a != [] {
      assert (a + b)[0] == a[0];
      assert (a + b)[1..] == a[1..] + b;
      KeepTitlesAppend(a[1..], b, keep);
    } else {
      assert a + b == b;
    }
  }

  lemma {:induction false} KeepAllTitles(rows: seq<Record>, keep: seq<string>)
    requires forall i :: 0 <= i < |rows| ==> rows[i].title in keep
    ensures KeepTitles(rows, keep) == rows
  {
    if rows != [] {
      KeepAllTitles(rows[1..], keep);
    }
  }

  lemma KeepAllTitlesSplit(a: seq<Record>, b: seq<Record>, keep: seq<string>)
    requires KeepTitles(a + b, keep) == a + b
    ensures KeepTitles(a, keep) == a && KeepTitles(b, keep) == b
  {
    KeepTitlesAppend(a, b, keep);
    KeepTitlesShorter(a, keep);
    KeepTitlesShorter(b, keep);
  }

  lemma {:induction false} KeepTitlesShorter(rows: seq<Record>, keep: seq<string>)
    ensures |KeepTitles(rows, keep)| <= |rows|
    ensures |KeepTitles(rows, keep)| == |rows| ==> KeepTitles(rows, keep) == rows
  {
    if rows != [] {
      KeepTitlesShorter(rows[1..], keep);
    }
  }

  lemma {:induction false} AddNothingMissing(rows: seq<Record>, titles: seq<string>)
    requires forall i :: 0 <= i < |titles| ==> titles[i] in Titles(rows)
    ensures AddMissing(rows, titles) == rows
  {
    if titles != [] {
      AddNothingMissing(rows, titles[1..]);
    }
  }

  lemma TitlesRemoveAt(rows: seq<Record>, k: nat)
    requires k < |rows|
    ensures Titles(RemoveAt(rows, k)) == RemoveAt(Titles(rows), k)
  {
    var a, b := Titles(RemoveAt(rows, k)), RemoveAt(Titles(rows), k);
    TitlesAt(rows);
    TitlesAt(RemoveAt(rows, k));
    assert |a| == |b|;
    forall i | 0 <= i < |a| ensures a[i] == b[i] {
      if i < k { assert b[i] == Titles(rows)[i]; }
      else { assert b[i] == Titles(rows)[i + 1]; }
    }
  }

  lemma OwnTitlesKept(rows: seq<Record>)
    ensures KeepTitles(rows, Titles(rows)) == rows
  {
    TitlesAt(rows);
    forall i | 0 <= i < |rows| ensures rows[i].title in Titles(rows) {
      assert Titles(rows)[i] == rows[i].title;
    }
    KeepAllTitles(rows, Titles(rows));
  }

  lemma OwnTitlesPresent(rows: seq<Record>)
    ensures AddMissing(rows, Titles(rows)) == rows
  {
    var t := Titles(rows);
    forall i | 0 <= i < |t| ensures t[i] in Titles(rows) { }
    AddNothingMissing(rows, t);
  }

  /** The delete half of removing entry k of a chat whose other rows all have
      different titles: only row k goes. */
  lemma UniqueTitleFiltered(rows: seq<Record>, k: nat)
    requires k < |rows|
    requires forall j :: 0 <= j < |rows| && j != k ==> rows[j].title != rows[k].title
    ensures KeepTitles(rows, RemoveAt(Titles(rows), k)) == RemoveAt(rows, k)
  {
    var keep := RemoveAt(Titles(rows), k);
    var kept := RemoveAt(rows, k);
    var pre, post := rows[..k], rows[k + 1..];
    assert KeepTitles(pre, keep) == pre && KeepTitles(post, keep) == post by {
      TitlesRemoveAt(rows, k);
      OwnTitlesKept(kept);
      assert kept == pre + post;
      KeepAllTitlesSplit(pre, post, keep);
    }
    SplitAround(rows, k);
    KeepTitlesAppend(pre + [rows[k]], post, keep);
    KeepTitlesAppend(pre, [rows[k]], keep);
    RemovedTitleGone(rows, k);
    assert KeepTitles([rows[k]], keep) == [];
    assert KeepTitles(pre + [rows[k]], keep) == pre;
  }

  lemma SplitAround<T>(s: seq<T>, k: nat)
    requires k < |s|
    ensures s == (s[..k] + [s[k]]) + s[k + 1..]
  {
  }

  lemma RemovedTitleGone(rows: seq<Record>, k: nat)
    requires k < |rows|
    requires forall j :: 0 <= j < |rows| && j != k ==> rows[j].title != rows[k].title
    ensures rows[k].title !in RemoveAt(Titles(rows), k)
  {
    TitlesAt(rows);
  }

  /** Removing list entry k through updateReadBooks deletes exactly row k when
      no other row of the chat has the same title. */
  lemma RemoveUniqueTitle(rows: seq<Record>, k: nat)
    requires k < |rows|
    requires forall j :: 0 <= j < |rows| && j != k ==> rows[j].title != rows[k].title
    ensures UpdatedShelf(rows, RemoveAt(Titles(rows), k)) == RemoveAt(rows, k)
  {
    var kept := RemoveAt(rows, k);
    UniqueTitleFiltered(rows, k);
    TitlesRemoveAt(rows, k);
    OwnTitlesPresent(kept);
  }

  /** Removing list entry k deletes nothing when another row of the chat shares
      its title: that title is still listed, so its rows survive. */
  lemma RemoveSharedTitle(rows: seq<Record>, k: nat, j: nat)
    requires k < |rows| && j < |rows| && j != k
    requires rows[j].title == rows[k].title
    ensures UpdatedShelf(rows, RemoveAt(Titles(rows), k)) == rows
  {
    var keep := RemoveAt(Titles(rows), k);
    TitlesAt(rows);
    forall i | 0 <= i < |rows| ensures rows[i].title in keep {
      var i' := if i == k then j else i;
      assert rows[i].title == rows[i'].title;
      if i' < k { assert keep[i'] == rows[i'].title; }
      else { assert keep[i' - 1] == rows[i'].title; }
    }
    KeepAllTitles(rows, keep);
    forall i | 0 <= i < |keep| ensures keep[i] in Titles(rows) {
      if i < k { assert keep[i] == Titles(rows)[i]; }
      else { assert keep[i] == Titles(rows)[i + 1]; }
    }
    AddNothingMissing(rows, keep);
  }

  class Store {
    var shelves: map<int, seq<Record>>

    constructor (initial: map<int, seq<Record>>)
      ensures shelves == initial
    {
      shelves := initial;
    }

    function Shelf(chat: int): seq<Record>
      reads this
    {
      if chat in shelves then shelves[chat] else []
    }

    /** getReadBooks: the titles of the chat's rows, in row order. */
    function ReadBooks(chat: int): (r: seq<string>)
      reads this
      ensures |r| == |Shelf(chat)|
      ensures forall i :: 0 <= i < |r| ==> r[i] == Shelf(chat)[i].title
    {
      TitlesAt(Shelf(chat));
      Titles(Shelf(chat))
    }

    /** getAllValues: each row, in row order, as "title\nauthor\nyear". */
    function AllValues(chat: int): (r: seq<string>)
      reads this
      ensures |r| == |Shelf(chat)|
      ensures forall i :: 0 <= i < |r| ==> r[i] == Render(Shelf(chat)[i])
    {
      Rendered(Shelf(chat))
    }

    /** bookExists: some row matches title, author and year; a NULL column matches nothing. */
    function BookExists(title: string, author: string, year: int, chat: int): (r: bool)
      reads this
      ensures r <==> exists i :: 0 <= i < |Shelf(chat)| && Shelf(chat)[i].title == title
                       && Shelf(chat)[i].author == Some(author) && Shelf(chat)[i].year == Some(year)
    {
      Complete(title, author, year) in Shelf(chat)
    }

    /** getBooksByAuthor: exactly the titles of the rows by that author, in row order. */
    function BooksByAuthor(author: string, chat: int): (r: seq<string>)
      reads this
      ensures forall t :: t in r <==>
        exists i :: 0 <= i < |Shelf(chat)| && Shelf(chat)[i].title == t && Shelf(chat)[i].author == Some(author)
    {
      var rows := Shelf(chat);
      assert forall t :: t in TitlesByAuthor(rows, author) <==>
        exists i :: 0 <= i < |rows| && rows[i].title == t && rows[i].author == Some(author)
      by {
        forall t { TitlesByAuthorListed(rows, author, t); }
      }
      TitlesByAuthor(rows, author)
    }

    /** getBooksByYear: exactly the titles of the rows of that year, in row order. */
    function BooksByYear(year: int, chat: int): (r: seq<string>)
      reads this
      ensures forall t :: t in r <==>
        exists i :: 0 <= i < |Shelf(chat)| && Shelf(chat)[i].title == t && Shelf(chat)[i].year == Some(year)
    {
      var rows := Shelf(chat);
      assert forall t :: t in TitlesByYear(rows, year) <==>
        exists i :: 0 <= i < |rows| && rows[i].title == t && rows[i].year == Some(year)
      by {
        forall t { TitlesByYearListed(rows, year, t); }
      }
      TitlesByYear(rows, year)
    }

    method AddReadBook(title: string, author: string, year: int, chat: int)
      modifies this
      ensures shelves == old(shelves)[chat := old(Shelf(chat)) + [Complete(title, author, year)]]
    {
      shelves := shelves[chat := Shelf(chat) + [Complete(title, author, year)]];
    }

    /** editReadBook: every row matching the old triple gets the new one; a row
        with a NULL column matches no triple. */
    method EditReadBook(oldTitle: string, oldAuthor: string, oldYear: int,
                        newTitle: string, newAuthor: string, newYear: int, chat: int)
      modifies this
      ensures shelves == old(shelves)[chat := Replace(old(Shelf(chat)),
                 Complete(oldTitle, oldAuthor, oldYear), Complete(newTitle, newAuthor, newYear))]
    {
      shelves := shelves[chat := Replace(Shelf(chat),
                 Complete(oldTitle, oldAuthor, oldYear), Complete(newTitle, newAuthor, newYear))];
    }

    method ClearReadBooks(chat: int)
      modifies this
      ensures shelves == old(shelves)[chat := []]
    {
      shelves := shelves[chat := []];
    }

    /** updateReadBooks: rows whose title is not listed are deleted, then each
        listed title without a row gets a title-only row. */
    method UpdateReadBooks(chat: int, titles: seq<string>)
      modifies this
      ensures shelves == old(shelves)[chat := UpdatedShelf(old(Shelf(chat)), titles)]
    {
      shelves := shelves[chat := UpdatedShelf(Shelf(chat), titles)];
    }
  }
}
