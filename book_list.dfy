/**
 * The book list page: it loads the list in the chosen order and removes a
 * deleted book from the list it shows without reloading.
 */
module BookList {
  import opened Wrappers
  import opened Models
  import opened Views
  import opened Api

  /** The page's state, one field per `useState`. */
  class BookListPage {
    var books: seq<Book>
    var ordering: string
    var deleteTarget: Option<Book>
    var message: Option<string>
    var loading: bool

    constructor ()
      ensures books == [] && ordering == DefaultOrdering && deleteTarget == None && message == None && loading
    {
      books := [];
      ordering := DefaultOrdering;
      deleteTarget := None;
      message := None;
      loading := true;
    }

    /**
     * `fetchBooks(order)`, with `reply` the settled `getBooks(order)` call:
     * the list is replaced on success; on failure it is kept and the error
     * message shown. `loading` is false once the call has settled.
     */
    method FetchBooks(order: string, reply: Settled<seq<Book>>) returns (requested: string)
      modifies this`books, this`message, this`loading
      ensures requested == GetBooksOrdering(Some(order)) && !loading
      ensures reply.Fulfilled? ==> books == reply.data && message == old(message)
      ensures reply.Rejected? ==> books == old(books) && message == Some(GetErrorMessage(reply.err))
    {
      loading := true;
      requested := GetBooksOrdering(Some(order));
      match reply {
        case Fulfilled(data) =>
          books := data;
        case Rejected(err) =>
          message := Some(GetErrorMessage(err));
      }
      loading := false;
    }

    /**
     * `handleDelete`, with `reply` the settled `deleteBook` call. Without a
     * target nothing happens. Otherwise the target's id is sent; success
     * removes exactly the books with that id, the others keeping their
     * order, and clears the message; failure keeps the list and shows the
     * error. The target is cleared either way.
     */
    method HandleDelete(reply: Settled<()>) returns (sent: Option<nat>)
      modifies this`books, this`message, this`deleteTarget
      ensures old(deleteTarget).None? ==> sent == None && unchanged(this)
      ensures old(deleteTarget).Some? ==>
        && sent == Some(old(deleteTarget).value.id) && deleteTarget == None
        && (reply.Fulfilled? ==> books == WithoutId(old(books), sent.value) && message == None)
        && (reply.Rejected? ==> books == old(books) && message == Some(GetErrorMessage(reply.err)))
    {
      if deleteTarget.None? {
        return None;
      }
      var id := deleteTarget.value.id;
      sent := Some(id);
      match reply {
        case Fulfilled(_) =>
          books := WithoutId(books, id);
          message := None;
        case Rejected(err) =>
          message := Some(GetErrorMessage(err));
      }
      deleteTarget := None;
    }
  }

  /** The page's first request, `getBooks` without an ordering, both list newest first. */
  lemma DefaultRequestListsNewestFirst()
    ensures ParseOrdering(Some(DefaultOrdering)) == CreatedDesc
    ensures ParseOrdering(Some(GetBooksOrdering(None))) == ParseOrdering(None)
  {
  }

  /** How often each row occurs once the rows with `id` are gone. */
  lemma {:induction false} WithoutIdCounts(s: seq<Book>, id: nat)
    ensures forall b :: multiset(WithoutId(s, id))[b] == if b.id == id then 0 else multiset(s)[b]
  {
    if s != [] {
      WithoutIdCounts(s[1..], id);
      assert s == [s[0]] + s[1..];
    }
  }

  /** Dropping rows from a sorted list leaves it sorted. */
  lemma {:induction false} WithoutIdKeepsSorted(o: Ordering, s: seq<Book>, id: nat)
    requires SortedBy(o, s)
    ensures SortedBy(o, WithoutId(s, id))
  {
    if s != [] {
      var t := WithoutId(s[1..], id);
      WithoutIdKeepsSorted(o, s[1..], id);
      if s[0].id != id {
        forall e | e in t ensures Precedes(o, s[0], e) {
          var k :| 0 <= k < |s| - 1 && s[1..][k] == e;
          assert s[k + 1] == e;
        }
        PrependSorted(o, s[0], t);
      }
    }
  }

  /**
   * Removing the rows with `id` after inserting `x` is inserting `x`
   * (unless it is removed too) after removing them: the rows that `x`
   * skipped over are still the ones it skips.
   */
  lemma {:induction false} WithoutIdInsert(o: Ordering, x: Book, s: seq<Book>, id: nat)
    requires SortedBy(o, s)
    ensures SortedBy(o, WithoutId(s, id))
    ensures WithoutId(Insert(o, x, s), id) == if x.id == id then WithoutId(s, id) else Insert(o, x, WithoutId(s, id))
  {
    WithoutIdKeepsSorted(o, s, id);
    if s == [] {
    } else if Precedes(o, x, s[0]) {
      var t := WithoutId(s, id);
      assert WithoutId([x] + s, id) == WithoutId([x], id) + t by {
        WithoutIdAppend([x], s, id);
      }
      if x.id != id && t != [] {
        HeadPrecedesAll(o, s);
        assert t[0] in s;
        PrecedesTransitive(o, x, s[0], t[0]);
      }
    } else {
      var u := Insert(o, x, s[1..]);
      WithoutIdInsert(o, x, s[1..], id);
      assert Insert(o, x, s) == [s[0]] + u;
      assert WithoutId([s[0]] + u, id) == WithoutId([s[0]], id) + WithoutId(u, id) by {
        WithoutIdAppend([s[0]], u, id);
      }
      assert WithoutId(s, id) == WithoutId([s[0]], id) + WithoutId(s[1..], id) by {
        assert s == [s[0]] + s[1..];
        WithoutIdAppend([s[0]], s[1..], id);
      }
    }
  }

  /** The insertion sort is stable, so removing rows by id commutes with sorting. */
  lemma {:induction false} WithoutIdSort(o: Ordering, rows: seq<Book>, id: nat)
    ensures WithoutId(Sort(o, rows), id) == Sort(o, WithoutId(rows, id))
  {
    if rows != [] {
      WithoutIdSort(o, rows[1..], id);
      WithoutIdInsert(o, rows[0], Sort(o, rows[1..]), id);
      assert WithoutId(rows, id) == WithoutId([rows[0]], id) + WithoutId(rows[1..], id) by {
        assert rows == [rows[0]] + rows[1..];
        WithoutIdAppend([rows[0]], rows[1..], id);
      }
      var w := WithoutId(rows, id);
      if rows[0].id != id {
        assert w == [rows[0]] + WithoutId(rows[1..], id);
        assert w[0] == rows[0] && w[1..] == WithoutId(rows[1..], id);
      }
    }
  }

  /**
   * Removing the deleted book from the shown list gives exactly what
   * reloading the list after the backend delete would show: the same
   * books in the same order.
   */
  lemma LocalRemovalMatchesReload(rows: seq<Book>, o: Ordering, id: nat)
    ensures var shown := WithoutId(Sort(o, rows), id);
      SortedBy(o, shown) && shown == Sort(o, WithoutId(rows, id))
  {
    WithoutIdSort(o, rows, id);
  }
}
