/**
 * The request handlers over the book table: registration (a decision
 * ladder ending in a status code), the ordered list, title search and
 * delete-by-id.
 */
module Views {
  import opened Wrappers
  import opened Text
  import opened Models
  import opened Serializers
  import opened Services

  const MsgInvalidIsbn := "ただしいISBNをにゅうりょくしてください"
  const MsgAlreadyRegistered := "このほんはもうとうろくされています"
  const MsgNotFound := "みつかりませんでした"
  const MsgNoConnection := "つながりませんでした"
  const MsgServerError := "エラーがおきました"

  /** A response body: a serialized record, an error with an optional record, or nothing. */
  datatype ReplyBody = Record(record: Book) | ErrorBody(error: string, book: Option<Book>) | NoContent

  datatype Reply = Reply(status: nat, body: ReplyBody)

  /** Every row went through registration: an ISBN-shaped key and a non-empty title. */
  predicate Registered(rows: seq<Book>) {
    forall b :: b in rows ==> IsIsbn(b.isbn) && b.title != ""
  }

  /**
   * The reply to a lookup that did not produce a book: a timeout is 504, a
   * connection failure or any other request error is 502, no result is 404.
   */
  function LookupFailureReply(found: Outcome<BookInfo>): (reply: Reply)
    requires !found.Ok?
    ensures found.Err? && found.error.Timeout? <==> reply.status == 504
    ensures found.Err? && !found.error.Timeout? <==> reply.status == 502
    ensures found.NoResult? <==> reply.status == 404
    ensures reply.body.ErrorBody? && reply.body.book == None && reply.body.error != ""
  {
    match found
    case Err(Timeout) => Reply(504, ErrorBody(MsgNotFound, None))
    case Err(ConnectionError) => Reply(502, ErrorBody(MsgNoConnection, None))
    case Err(_) => Reply(502, ErrorBody(MsgNotFound, None))
    case NoResult => Reply(404, ErrorBody(MsgNotFound, None))
  }

  /**
   * `_book_create`. `data` is the request's `isbn` field; `ndl` and
   * `google` are what the two catalog GETs would produce; `fault` is what
   * the database adds to the insert. The ladder: 400 for an invalid ISBN,
   * 409 with the existing record for a registered ISBN, then the lookup
   * (504, 502, 404), then the insert (409 on a unique-constraint race, 500
   * on any other failure, else 201 with the one new record). Only 201
   * changes the table, and only 201 and the lookup itself consult a
   * catalog.
   */
  method BookCreate(table: BookTable, data: Option<string>, ndl: Fetched<NdlFeed>, google: Fetched<Volumes>,
                    fault: PersistFault)
    returns (reply: Reply, calls: seq<Source>)
    requires table.Valid() && Registered(table.rows)
    modifies table
    ensures table.Valid() && Registered(table.rows)
    ensures reply.status != 201 ==> unchanged(table) && reply.body.ErrorBody? && reply.body.error != ""
    ensures ValidateIsbnField(data).Failure? ==>
      reply == Reply(400, ErrorBody(MsgInvalidIsbn, None)) && calls == []
    ensures ValidateIsbnField(data).Success? && FindByIsbn(old(table.rows), data.value).Some? ==>
      reply == Reply(409, ErrorBody(MsgAlreadyRegistered, FindByIsbn(old(table.rows), data.value))) && calls == []
    ensures ValidateIsbnField(data).Success? && FindByIsbn(old(table.rows), data.value).None? ==>
      var primary := FetchBookFromNdl(ndl);
      var found := Lookup(primary, FetchCoverFromGoogleBooks(google));
      && calls == (if NeedsCover(primary) then [Ndl, GoogleBooks] else [Ndl])
      && (!found.Ok? ==> reply == LookupFailureReply(found))
      && (found.Ok? && fault == ConcurrentDuplicate ==> reply == Reply(409, ErrorBody(MsgAlreadyRegistered, None)))
      && (found.Ok? && fault == NoFault && |found.value.title| > TitleMaxLength ==>
            reply == Reply(500, ErrorBody(MsgServerError, None)))
      && (found.Ok? && fault == OtherDbFailure ==> reply == Reply(500, ErrorBody(MsgServerError, None)))
      && (found.Ok? && fault == NoFault && |found.value.title| <= TitleMaxLength ==>
            var b := Book(old(table.nextId), data.value, found.value.title, found.value.coverImageUrl, old(table.clock));
            && reply == Reply(201, Record(b))
            && table.rows == old(table.rows) + [b]
            && table.nextId == old(table.nextId) + 1 && table.clock == old(table.clock) + 1)
  {
    calls := [];
    var v := ValidateIsbnField(data);
    if v.Failure? {
      return Reply(400, ErrorBody(MsgInvalidIsbn, None)), calls;
    }
    var isbn := v.value;

    var existing := FindByIsbn(table.rows, isbn);
    if existing.Some? {
      return Reply(409, ErrorBody(MsgAlreadyRegistered, existing)), calls;
    }

    var bookInfo;
    bookInfo, calls := LookupBookByIsbn(FetchBookFromNdl(ndl), FetchCoverFromGoogleBooks(google));
    if !bookInfo.Ok? {
      return LookupFailureReply(bookInfo), calls;
    }

    var created := table.Create(isbn, bookInfo.value.title, bookInfo.value.coverImageUrl, fault);
    match created {
      case Failure(IntegrityError) =>
        reply := Reply(409, ErrorBody(MsgAlreadyRegistered, None));
      case Failure(OtherDbError) =>
        reply := Reply(500, ErrorBody(MsgServerError, None));
      case Success(book) =>
        reply := Reply(201, Record(book));
    }
  }

  /**
   * Two registrations of the same ISBN in a row: once the first has
   * created the record, the second is refused with 409 and carries that
   * record, without consulting a catalog.
   */
  method RegisterTwice(table: BookTable, isbn: string, ndl: Fetched<NdlFeed>, google: Fetched<Volumes>,
                       fault: PersistFault)
    returns (first: Reply, second: Reply)
    requires table.Valid() && Registered(table.rows)
    modifies table
    ensures table.Valid() && Registered(table.rows)
    ensures first.status == 201 ==>
      first.body.Record? && second == Reply(409, ErrorBody(MsgAlreadyRegistered, Some(first.body.record)))
  {
    var calls;
    first, calls := BookCreate(table, Some(isbn), ndl, google, fault);
    second, calls := BookCreate(table, Some(isbn), ndl, google, NoFault);
  }

  /** `Book.objects.order_by(...)` keys: the four whitelisted values of `ordering`. */
  datatype Ordering = TitleAsc | TitleDesc | CreatedAsc | CreatedDesc

  /** `ordering` read with default `-created_at`; a value outside the whitelist falls back to `-created_at`. */
  function ParseOrdering(param: Option<string>): (o: Ordering)
    ensures param == Some("title") <==> o == TitleAsc
    ensures param == Some("-title") <==> o == TitleDesc
    ensures param == Some("created_at") <==> o == CreatedAsc
    ensures o == CreatedDesc <==> param !in {Some("title"), Some("-title"), Some("created_at")}
  {
    var ordering := param.GetOr("-created_at");
    if ordering == "title" then TitleAsc
    else if ordering == "-title" then TitleDesc
    else if ordering == "created_at" then CreatedAsc
    else CreatedDesc
  }

  /** Code-point lexicographic order on titles, standing for the database collation. */
  predicate TitleLe(a: string, b: string) {
    a == [] || (b != [] && (a[0] < b[0] || (a[0] == b[0] && TitleLe(a[1..], b[1..]))))
  }

  lemma {:induction false} TitleLeTotal(a: string, b: string)
    ensures TitleLe(a, b) || TitleLe(b, a)
  {
    if a != [] && b != [] && a[0] == b[0] {
      TitleLeTotal(a[1..], b[1..]);
    }
  }

  lemma {:induction false} TitleLeTransitive(a: string, b: string, c: string)
    requires TitleLe(a, b) && TitleLe(b, c)
    ensures TitleLe(a, c)
  {
    if a != [] && a[0] == b[0] && b[0] == c[0] {
      TitleLeTransitive(a[1..], b[1..], c[1..]);
    }
  }

  /** `a` may be listed before `b` under ordering `o`. */
  predicate Precedes(o: Ordering, a: Book, b: Book) {
    match o
    case TitleAsc => TitleLe(a.title, b.title)
    case TitleDesc => TitleLe(b.title, a.title)
    case CreatedAsc => a.createdAt <= b.createdAt
    case CreatedDesc => b.createdAt <= a.createdAt
  }

  lemma PrecedesTotal(o: Ordering, a: Book, b: Book)
    ensures Precedes(o, a, b) || Precedes(o, b, a)
  {
    TitleLeTotal(a.title, b.title);
  }

  lemma PrecedesTransitive(o: Ordering, a: Book, b: Book, c: Book)
    requires Precedes(o, a, b) && Precedes(o, b, c)
    ensures Precedes(o, a, c)
  {
    match o
    case TitleAsc => TitleLeTransitive(a.title, b.title, c.title);
    case TitleDesc => TitleLeTransitive(c.title, b.title, a.title);
    case _ =>
  }

  predicate SortedBy(o: Ordering, s: seq<Book>) {
    forall i, j :: 0 <= i < j < |s| ==> Precedes(o, s[i], s[j])
  }

  /** A row that may precede every row of a sorted sequence can head it. */
  lemma PrependSorted(o: Ordering, y: Book, t: seq<Book>)
    requires SortedBy(o, t)
    requires forall e :: e in t ==> Precedes(o, y, e)
    ensures SortedBy(o, [y] + t)
  {
    var r := [y] + t;
    forall i, j | 0 <= i < j < |r| ensures Precedes(o, r[i], r[j]) {
      assert r[j] == t[j - 1] && t[j - 1] in t;
      if i > 0 {
        assert r[i] == t[i - 1];
      }
    }
  }

  /** The head of a sorted sequence may precede each of its rows. */
  lemma HeadPrecedesAll(o: Ordering, s: seq<Book>)
    requires SortedBy(o, s) && s != []
    ensures forall e :: e in s ==> Precedes(o, s[0], e)
  {
    PrecedesTotal(o, s[0], s[0]);
    forall e | e in s ensures Precedes(o, s[0], e) {
      var k :| 0 <= k < |s| && s[k] == e;
    }
  }

  /** `x` placed into a sorted sequence before the first row it may precede. */
  function Insert(o: Ordering, x: Book, s: seq<Book>): (r: seq<Book>)
    requires SortedBy(o, s)
    ensures SortedBy(o, r)
    ensures multiset(r) == multiset(s) + multiset{x}
  {
    if s == [] then [x]
    else if Precedes(o, x, s[0]) then
      HeadPrecedesAll(o, s);
      forall e | e in s ensures Precedes(o, x, e) {
        PrecedesTransitive(o, x, s[0], e);
      }
      PrependSorted(o, x, s);
      [x] + s
    else
      var t := Insert(o, x, s[1..]);
      assert s == [s[0]] + s[1..];
      PrecedesTotal(o, x, s[0]);
      HeadPrecedesAll(o, s);
      forall e | e in t ensures Precedes(o, s[0], e) {
        assert e in multiset(s[1..]) + multiset{x};
      }
      PrependSorted(o, s[0], t);
      [s[0]] + t
  }

  /** Insertion sort: the rows ordered by `o`, a permutation of the input. */
  function Sort(o: Ordering, s: seq<Book>): (r: seq<Book>)
    ensures SortedBy(o, r)
    ensures multiset(r) == multiset(s)
  {
    if s == [] then []
    else
      assert s == [s[0]] + s[1..];
      Insert(o, s[0], Sort(o, s[1..]))
  }

  /**
   * `_book_list`: every row exactly once, ordered by the requested key,
   * newest first when `ordering` is absent or not whitelisted.
   */
  function ListBooks(table: BookTable, ordering: Option<string>): (r: seq<Book>)
    reads table
    ensures multiset(r) == multiset(table.rows)
    ensures SortedBy(ParseOrdering(ordering), r)
  {
    Sort(ParseOrdering(ordering), table.rows)
  }

  /** The rows whose title contains `query`, ignoring case, in table order. */
  function Matching(rows: seq<Book>, query: string): (r: seq<Book>)
    ensures forall b :: b in r <==> b in rows && ContainsIgnoringCase(b.title, query)
    ensures forall b :: multiset(r)[b] == if ContainsIgnoringCase(b.title, query) then multiset(rows)[b] else 0
    ensures |r| <= |rows|
  {
    if rows == [] then []
    else
      assert rows == [rows[0]] + rows[1..];
      if ContainsIgnoringCase(rows[0].title, query) then [rows[0]] + Matching(rows[1..], query)
      else Matching(rows[1..], query)
  }

  /**
   * `book_search`: nothing for an absent, empty or whitespace-only `q`;
   * otherwise exactly the rows whose title contains the trimmed query,
   * ignoring case, newest first.
   */
  function BookSearch(table: BookTable, q: Option<string>): (r: seq<Book>)
    reads table
    ensures IsBlank(q.GetOr("")) ==> r == []
    ensures !IsBlank(q.GetOr("")) ==>
      && (forall b :: b in r <==> b in table.rows && ContainsIgnoringCase(b.title, Trim(q.GetOr(""))))
      && multiset(r) == multiset(Matching(table.rows, Trim(q.GetOr(""))))
      && (forall b :: multiset(r)[b] ==
            if ContainsIgnoringCase(b.title, Trim(q.GetOr(""))) then multiset(table.rows)[b] else 0)
      && SortedBy(CreatedDesc, r)
  {
    var query := Trim(q.GetOr(""));
    TrimEmptyIffBlank(q.GetOr(""));
    if query == "" then []
    else
      var r := Sort(CreatedDesc, Matching(table.rows, query));
      assert forall b :: b in r <==> b in multiset(r);
      r
  }

  /** Rows with unique ids hold each record at most once. */
  lemma {:induction false} UniqueIdsCountAtMostOne(rows: seq<Book>, b: Book)
    requires UniqueIds(rows)
    ensures multiset(rows)[b] <= 1
  {
    if rows != [] {
      var t := rows[1..];
      assert rows == [rows[0]] + t;
      assert UniqueIds(t) by {
        forall i, j | 0 <= i < j < |t| ensures t[i].id != t[j].id {
          assert t[i] == rows[i + 1] && t[j] == rows[j + 1];
        }
      }
      UniqueIdsCountAtMostOne(t, b);
      if rows[0] == b {
        forall k | 0 <= k < |t| ensures t[k] != b {
          assert t[k] == rows[k + 1];
        }
        assert b !in t;
      }
    }
  }

  /** Over a table with unique ids, a search lists each matching record exactly once. */
  lemma BookSearchListsEachOnce(table: BookTable, q: Option<string>, b: Book)
    requires UniqueIds(table.rows)
    ensures multiset(BookSearch(table, q))[b] <= 1
    ensures !IsBlank(q.GetOr("")) && b in table.rows && ContainsIgnoringCase(b.title, Trim(q.GetOr(""))) ==>
      multiset(BookSearch(table, q))[b] == 1
  {
    UniqueIdsCountAtMostOne(table.rows, b);
  }

  /** `book_delete`: 204 and the row leaves the table when the id exists, else 404 and nothing changes. */
  method BookDelete(table: BookTable, pk: nat) returns (reply: Reply)
    requires table.Valid() && Registered(table.rows)
    modifies table`rows
    ensures table.Valid() && Registered(table.rows)
    ensures FindById(old(table.rows), pk).Some? ==>
      reply == Reply(204, NoContent) && table.rows == WithoutId(old(table.rows), pk)
      && |table.rows| == |old(table.rows)| - 1
    ensures FindById(old(table.rows), pk).None? ==>
      reply == Reply(404, ErrorBody(MsgNotFound, None)) && unchanged(table)
  {
    var book := FindById(table.rows, pk);
    if book.None? {
      return Reply(404, ErrorBody(MsgNotFound, None));
    }
    WithoutIdRemovesOne(table.rows, pk);
    table.Delete(pk);
    reply := Reply(204, NoContent);
  }
}
