/**
 * The `Book` table: its record shape, the column limits, the uniqueness
 * of `isbn` and the store operations the request handlers use
 * (`filter(...).first()`, `get(pk=...)`, `create(...)`, `delete()`).
 */
module Models {
  import opened Wrappers

  const IsbnMaxLength: nat := 13
  const TitleMaxLength: nat := 255

  /**
   * One row. `createdAt` is the value of the store's creation counter
   * at insertion, standing for the `auto_now_add` timestamp.
   * `coverImageUrl` may be null (None) or blank ("").
   */
  datatype Book = Book(id: nat, isbn: string, title: string, coverImageUrl: Option<string>, createdAt: nat)

  predicate FitsColumns(b: Book) {
    |b.isbn| <= IsbnMaxLength && |b.title| <= TitleMaxLength
  }

  predicate UniqueIsbns(books: seq<Book>) {
    forall i, j :: 0 <= i < j < |books| ==> books[i].isbn != books[j].isbn
  }

  predicate UniqueIds(books: seq<Book>) {
    forall i, j :: 0 <= i < j < |books| ==> books[i].id != books[j].id
  }

  /** Creation order: each row was created strictly after the rows before it. */
  predicate OldestFirst(books: seq<Book>) {
    forall i, j :: 0 <= i < j < |books| ==> books[i].createdAt < books[j].createdAt
  }

  /** `Book.objects.filter(isbn=isbn).first()`: a row with that ISBN, if there is one. */
  function FindByIsbn(books: seq<Book>, isbn: string): (r: Option<Book>)
    ensures r.Some? <==> exists b :: b in books && b.isbn == isbn
    ensures r.Some? ==> r.value in books && r.value.isbn == isbn
  {
    if books == [] then None
    else if books[|books| - 1].isbn == isbn then Some(books[|books| - 1])
    else FindByIsbn(books[..|books| - 1], isbn)
  }

  /** With unique ISBNs the row found is the only row with that ISBN. */
  lemma FindByIsbnIsTheOnlyMatch(books: seq<Book>, isbn: string, b: Book)
    requires UniqueIsbns(books)
    requires b in books && b.isbn == isbn
    ensures FindByIsbn(books, isbn) == Some(b)
  {
    var f := FindByIsbn(books, isbn).value;
    var i :| 0 <= i < |books| && books[i] == b;
    var j :| 0 <= j < |books| && books[j] == f;
    assert !(i < j) && !(j < i);
  }

  /** `Book.objects.get(pk=id)`: the row with that id, or `DoesNotExist` (None). */
  function FindById(books: seq<Book>, id: nat): (r: Option<Book>)
    ensures r.Some? <==> exists b :: b in books && b.id == id
    ensures r.Some? ==> r.value in books && r.value.id == id
  {
    if books == [] then None
    else if books[0].id == id then Some(books[0])
    else FindById(books[1..], id)
  }

  /** The rows whose id differs from `id`, in their original order. */
  function WithoutId(books: seq<Book>, id: nat): (r: seq<Book>)
    ensures forall b :: b in r <==> b in books && b.id != id
    ensures |r| <= |books|
  {
    if books == [] then []
    else if books[0].id == id then WithoutId(books[1..], id)
    else [books[0]] + WithoutId(books[1..], id)
  }

  /** Filtering by id distributes over concatenation: the kept rows keep their order. */
  lemma {:induction false} WithoutIdAppend(a: seq<Book>, b: seq<Book>, id: nat)
    ensures WithoutId(a + b, id) == WithoutId(a, id) + WithoutId(b, id)
  {
    if a == [] {
      assert a + b == b;
    } else {
      assert (a + b)[0] == a[0];
      assert (a + b)[1..] == a[1..] + b;
      WithoutIdAppend(a[1..], b, id);
    }
  }

  /** Removing a present id from rows with unique ids drops exactly one row. */
  lemma {:induction false} WithoutIdRemovesOne(books: seq<Book>, id: nat)
    requires UniqueIds(books)
    requires exists b :: b in books && b.id == id
    ensures |WithoutId(books, id)| == |books| - 1
  {
    if books[0].id == id {
      WithoutIdAbsent(books[1..], id);
    } else {
      WithoutIdRemovesOne(books[1..], id);
    }
  }

  /** Removing an id no row carries changes nothing. */
  lemma {:induction false} WithoutIdAbsent(books: seq<Book>, id: nat)
    requires forall b :: b in books ==> b.id != id
    ensures WithoutId(books, id) == books
  {
    if books != [] {
      WithoutIdAbsent(books[1..], id);
    }
  }

  /** The table invariants hold of a row put in front of rows it precedes. */
  lemma PrependKeepsOrder(x: Book, t: seq<Book>)
    requires UniqueIsbns(t) && UniqueIds(t) && OldestFirst(t)
    requires forall b :: b in t ==> x.createdAt < b.createdAt && x.isbn != b.isbn && x.id != b.id
    ensures var r := [x] + t; UniqueIsbns(r) && UniqueIds(r) && OldestFirst(r)
  {
    var r := [x] + t;
    forall i, j | 0 <= i < j < |r|
      ensures r[i].createdAt < r[j].createdAt && r[i].isbn != r[j].isbn && r[i].id != r[j].id
    {
      assert r[j] == t[j - 1] && t[j - 1] in t;
      if i > 0 {
        assert r[i] == t[i - 1];
      }
    }
  }

  /** Removing rows keeps every row-wise invariant of the table. */
  lemma {:induction false} WithoutIdKeepsOrder(books: seq<Book>, id: nat)
    requires UniqueIsbns(books) && UniqueIds(books) && OldestFirst(books)
    ensures var r := WithoutId(books, id); UniqueIsbns(r) && UniqueIds(r) && OldestFirst(r)
  {
    if books != [] {
      var t := WithoutId(books[1..], id);
      WithoutIdKeepsOrder(books[1..], id);
      if books[0].id != id {
        forall b | b in t
          ensures books[0].createdAt < b.createdAt && books[0].isbn != b.isbn && books[0].id != b.id
        {
          var k :| 0 <= k < |books| - 1 && books[1..][k] == b;
          assert books[k + 1] == b;
        }
        PrependKeepsOrder(books[0], t);
      }
    }
  }

  /** The outcome of one `INSERT` beyond the rows visible to this request. */
  datatype PersistFault =
    | NoFault
      /** a concurrent registration of the same ISBN committed first (IntegrityError) */
    | ConcurrentDuplicate
      /** any other database failure */
    | OtherDbFailure

  datatype DbError = IntegrityError | OtherDbError

  /**
   * The book table. `rows` holds the records in creation order; `nextId`
   * and `clock` are the primary-key sequence and the creation counter.
   */
  class BookTable {
    var rows: seq<Book>
    var nextId: nat
    var clock: nat

    ghost predicate Valid()
      reads this
    {
      UniqueIsbns(rows) && UniqueIds(rows) && OldestFirst(rows)
      && (forall b :: b in rows ==> FitsColumns(b) && b.id < nextId && b.createdAt < clock)
    }

    constructor ()
      ensures Valid() && rows == []
    {
      rows := [];
      nextId := 1;
      clock := 0;
    }

    /**
     * `Book.objects.create(...)`: a new row with a fresh id and the current
     * creation time, unless the unique ISBN constraint or a column limit
     * refuses it, or the database fails.
     */
    method Create(isbn: string, title: string, coverImageUrl: Option<string>, fault: PersistFault)
      returns (r: Result<Book, DbError>)
      requires Valid()
      modifies this
      ensures Valid()
      ensures fault == ConcurrentDuplicate || FindByIsbn(old(rows), isbn).Some? ==>
        r == Failure(IntegrityError) && unchanged(this)
      ensures fault == OtherDbFailure && FindByIsbn(old(rows), isbn).None? ==>
        r == Failure(OtherDbError) && unchanged(this)
      ensures fault == NoFault && FindByIsbn(old(rows), isbn).None? ==>
        if |isbn| <= IsbnMaxLength && |title| <= TitleMaxLength then
          r == Success(Book(old(nextId), isbn, title, coverImageUrl, old(clock)))
          && rows == old(rows) + [r.value] && nextId == old(nextId) + 1 && clock == old(clock) + 1
        else r == Failure(OtherDbError) && unchanged(this)
    {
      if fault == ConcurrentDuplicate || FindByIsbn(rows, isbn).Some? {
        return Failure(IntegrityError);
      }
      if fault == OtherDbFailure || |isbn| > IsbnMaxLength || |title| > TitleMaxLength {
        return Failure(OtherDbError);
      }
      var b := Book(nextId, isbn, title, coverImageUrl, clock);
      rows := rows + [b];
      nextId := nextId + 1;
      clock := clock + 1;
      r := Success(b);
    }

    /** `book.delete()`: the row with that id leaves the table; nothing else changes. */
    method Delete(id: nat)
      requires Valid()
      modifies this`rows
      ensures Valid()
      ensures rows == WithoutId(old(rows), id)
    {
      WithoutIdKeepsOrder(rows, id);
      rows := WithoutId(rows, id);
    }
  }
}
