# ISBN book register — a Dafny model

The system is a small ISBN book register. This model covers its core logic.

**Backend**
- It validates an ISBN.
- It looks the book up in a primary catalog (NDL Search) for the title.
- It falls back to Google Books only for a missing cover.
- It stores books in a table keyed by a unique ISBN.
- It serves four requests: register, list, search and delete.

**Frontend**
- A response interceptor and an error-message precedence function.
- The event handlers of four pages: manual registration, barcode registration, the book list and search.

How the model treats external inputs:
- HTTP and parsing are replaced by what they produce. Each catalog client receives a parsed body or the request error it raised.
- Each page handler receives the settled result of its API call, and returns what it sent so the request can be related to the state.
- The database's own failures at insert time are a parameter.

Files, one module each:

| file | module | models |
|---|---|---|
| `wrappers.dfy` | `Wrappers` | `Option`, `Result` |
| `text.dfy` | `Text` | digit filtering, whitespace trimming, substring search, ASCII case folding, JavaScript/Python truthiness of an optional string |
| `models.dfy` | `Models` | the `Book` record, the column limits, uniqueness of ISBNs, the `BookTable` class (create, delete) |
| `serializers.dfy` | `Serializers` | `ISBNSerializer` with its field bounds and `validate_isbn` |
| `services.dfy` | `Services` | `fetch_book_from_ndl`, `fetch_cover_from_google_books`, `lookup_book_by_isbn` |
| `views.dfy` | `Views` | `_book_create`, `_book_list`, `book_search`, `book_delete` |
| `api.dfy` | `Api` | the axios interceptor, `getErrorMessage`, the `getBooks` default |
| `register_manual.dfy` | `RegisterManual` | `handleChange`, `handleSubmit` |
| `register_barcode.dfy` | `RegisterBarcode` | `stopScanner`, `handleBarcode` |
| `book_list.dfy` | `BookList` | `fetchBooks`, `handleDelete` |
| `search_page.dfy` | `SearchPage` | `handleSearch` |

Parts of the source that change state are classes with `modifies` clauses:
- the table;
- the axios error object that the interceptor annotates;
- each page's `useState` fields.

`lookup_book_by_isbn`, which updates its dictionary in place, is a method. It is proved equal to the policy function `Services.Lookup`.

Queries and validators are functions. Lemmas relate them: the trim/blank equivalence, sorting as a permutation, and the fact that removing a deleted book from the shown list gives exactly the list a reload would show in the model. That last fact rests on the model's sort being stable: books with equal keys keep their table (creation) order. The database does not promise that tie-break, so for the `title` ordering the program itself guarantees only the same books, sorted by the same key.

## Model

| member | source | states |
|---|---|---|
| Text.KeepDigits | frontend/src/components/RegisterManual.js:14 | The result holds only digits. It has exactly as many characters as the input has digits. An all-digit input is returned unchanged. |
| Text.KeepDigitsAppend | frontend/src/components/RegisterBarcode.js:29 | Removing non-digits distributes over concatenation, so the digits keep their order. |
| Text.Trim | backend/books/views.py:121 | `strip()`/`trim()`: the result is the input with its blank prefix removed (`TrimStart`) and then its blank suffix removed. It neither starts nor ends with whitespace. |
| Text.TrimEmptyIffBlank | backend/books/views.py:121-124 | A string trims to empty exactly when it is empty or all whitespace. |
| Text.TrimKeepsTrimmed | frontend/src/components/Search.js:21 | A string with no whitespace at either end trims to itself. So the backend's second trim of the query the page sent changes nothing. |
| Text.ContainsIffOccurs | frontend/src/services/api.js:12 | `includes` holds exactly when the pattern occurs at some index. |
| Models.FindByIsbn | backend/books/views.py:36 | `filter(isbn=...).first()` finds a row exactly when some row has that ISBN, and the row found has it. |
| Models.FindByIsbnIsTheOnlyMatch | backend/books/models.py:5 | With unique ISBNs, the row found is the one row with that ISBN. |
| Models.FindById | backend/books/views.py:106-112 | `get(pk=...)` finds a row exactly when some row has that id, and the row found has it. |
| Models.WithoutId | frontend/src/components/BookList.js:33 | The result keeps exactly the rows whose id differs. It is never longer than the input. |
| Models.WithoutIdAppend | frontend/src/components/BookList.js:33 | Filtering by id distributes over concatenation, so the kept rows keep their order. |
| Models.WithoutIdRemovesOne | backend/books/views.py:114 | With unique ids, deleting a present id removes exactly one row. |
| Models.WithoutIdAbsent | backend/books/views.py:106-112 | Removing an id no row has changes nothing. |
| Models.WithoutIdKeepsOrder | backend/books/models.py:5-11 | Removing rows keeps unique ISBNs, unique ids and creation order. |
| Models.BookTable.constructor | backend/books/models.py:4-11 | The table starts empty and satisfies its invariant. |
| Models.BookTable.Create | backend/books/models.py:4-8 | A duplicate ISBN or a concurrent duplicate gives an IntegrityError. Another database failure or a column overflow gives another error. Both errors leave the table unchanged. Otherwise exactly one row is appended with a fresh id, the given fields and the current creation time. The invariant holds: unique ISBNs and ids, creation order, column limits. |
| Models.BookTable.Delete | backend/books/views.py:114 | Exactly the rows with that id are removed, the others keeping their order. The invariant holds. |
| Serializers.CheckBounds | backend/books/serializers.py:14 | The field bounds pass exactly the values of length 10 to 13. |
| Serializers.ValidateIsbn | backend/books/serializers.py:16-21 | The value is accepted exactly when it is all digits with length 10 or 13. It is returned unchanged. A non-digit character is reported as such. |
| Serializers.ValidateIsbnField | backend/books/serializers.py:13-21 | The field is accepted exactly when it is present and ISBN-shaped, and it is returned unchanged. A missing field is "required". A value outside the bounds is refused by the field, before `validate_isbn` runs. |
| Serializers.ElevenOrTwelveDigitsRejected | backend/books/serializers.py:14-20 | 11 or 12 digits pass the field bounds but are refused for their length. |
| Services.FetchBookFromNdl | backend/books/services.py:23-46 | A request error propagates, and it is the only source of an error. Malformed XML, a missing item and a missing or empty title all give "no result", and only those do. A well-formed feed whose item has a non-empty title always gives a book. That book has the item's title and no cover. |
| Services.ToHttps | backend/books/services.py:72-73 | A URL starting with `http://` becomes `https://` plus the same remainder. Any other URL is unchanged. No result starts with `http://`. |
| Services.ToHttpsIdempotent | backend/books/services.py:72-73 | Normalising twice equals normalising once. |
| Services.FetchCoverFromGoogleBooks | backend/books/services.py:54-75 | A request error propagates. A missing or zero `totalItems`, or missing or empty `items`, gives no cover. Otherwise the first volume's truthy `thumbnail` is used, else its `smallThumbnail`, else there is no cover. The result is normalised to https. |
| Services.Lookup | backend/books/services.py:78-98 | Primary errors and "no result" are returned as they are. A found title is always kept. The secondary answer is used only when the primary found a book without a truthy cover: its URL, or None for no result. A secondary error is absorbed and leaves the primary's result. |
| Services.LookupBookByIsbn | backend/books/services.py:85-98 | The in-place update computes `Lookup`. Google Books is called exactly when the primary found a book without a cover, and the primary is always called first. |
| Services.CoverComesFromSecondary | backend/books/services.py:37-46 | With the real primary client, a found book's title is non-empty. It has a cover exactly when Google Books returned one, and that cover never starts with `http://`. |
| Views.LookupFailureReply | backend/books/views.py:44-66 | A timeout gives 504. A connection error or any other request error gives 502. "No result" gives 404. Each is an error body without a book. |
| Views.BookCreate | backend/books/views.py:24-87 | The ladder is: invalid ISBN 400, then registered ISBN 409 with the existing record, then lookup failures 504, 502 and 404, then an insert race 409, then other database failures 500, then 201 with exactly one new record holding the requested ISBN and the looked-up title and cover. On 201 the id sequence and the creation counter each advance by one. The table changes only on 201. 400 and 409-existing consult no catalog. The table invariant and the "every row registered" invariant are preserved. |
| Views.RegisterTwice | backend/books/views.py:36-41 | Once a registration returns 201, registering the same ISBN again gives 409 carrying the record just created. |
| Views.ParseOrdering | backend/books/views.py:92-97 | `title`, `-title` and `created_at` select their own order. Anything else, including no value, gives newest first. |
| Views.PrecedesTransitive | backend/books/views.py:95 | Each ordering is transitive. |
| Views.Sort | backend/books/views.py:95-97 | `order_by` result: sorted by the key, and a permutation of the rows. |
| Views.ListBooks | backend/books/views.py:90-100 | Every row is listed exactly once, sorted by the parsed ordering. |
| Views.Matching | backend/books/views.py:126 | A row is kept exactly when its title contains the query, ignoring case. Each kept row occurs as often as in the table, and each other row not at all. |
| Views.BookSearch | backend/books/views.py:118-128 | An absent, empty or whitespace-only `q` gives no rows. Otherwise the result holds exactly the rows whose title contains the trimmed query, ignoring case, each as often as in the table, newest first. |
| Views.UniqueIdsCountAtMostOne | backend/books/models.py:4-8 | Rows with unique ids hold each record at most once. |
| Views.BookSearchListsEachOnce | backend/books/views.py:118-128 | Over a table with unique ids, a search lists each matching record exactly once and every other record not at all. |
| Views.BookDelete | backend/books/views.py:103-115 | A present id gives 204 and removes exactly that record, so the table shrinks by one. An absent id gives 404 and leaves the table unchanged. Only the rows may change: the id sequence and the creation counter never do. The invariants are preserved. |
| Api.OnRejected | frontend/src/services/api.js:11-18 | A timeout (`ECONNABORTED`, or "timeout" in the message) or a missing response sets `friendlyMessage` to "could not connect". Any other error keeps its `friendlyMessage`. The same error is rejected again. |
| Api.GetErrorMessage | frontend/src/services/api.js:21-29 | The server's truthy `error` wins, then a truthy `friendlyMessage`, then the default message. The message is never empty. |
| Api.NoResponseShowsNoConnection | frontend/src/services/api.js:14-27 | After the interceptor, an error without a response shows "could not connect". |
| Api.ConflictBook | frontend/src/components/RegisterManual.js:40-42 | There is a book exactly for a 409 response whose data carries one, and it is that book. |
| Api.GetBooksOrdering | frontend/src/services/api.js:35-37 | The given ordering is sent. Without one, `-created_at` is sent. |
| RegisterManual.RegisterManualPage.constructor | frontend/src/components/RegisterManual.js:7-11 | The initial state: empty input, no message, no book, not loading. |
| RegisterManual.RegisterManualPage.HandleChange | frontend/src/components/RegisterManual.js:13-18 | The input becomes the digits of the typed value when there are at most 13 of them. Otherwise it is left unchanged, not truncated. It always holds at most 13 digits. |
| RegisterManual.RegisterManualPage.HandleSubmit | frontend/src/components/RegisterManual.js:20-46 | A length other than 10 or 13 only sets the error message and sends nothing. Otherwise the ISBN is sent, and it passes the backend's validation. Success shows the book and the success message and clears the input. Failure shows `getErrorMessage` and the 409 book if there is one, else no book. `loading` ends false. |
| RegisterBarcode.RegisterBarcodePage.constructor | frontend/src/components/RegisterBarcode.js:8-14 | The initial state: no message, no book, not scanning, not loading, no scanner. |
| RegisterBarcode.RegisterBarcodePage.StopScanner | frontend/src/components/RegisterBarcode.js:16-26 | The scanner reference is released and scanning ends. |
| RegisterBarcode.RegisterBarcodePage.HandleBarcode | frontend/src/components/RegisterBarcode.js:28-55 | The candidate is the decoded text's digits. A length other than 10 or 13 only sets the retry message, so the scanner keeps running and nothing is sent. Otherwise the scanner is stopped and then the ISBN is sent: the call trace is exactly a scanner stop followed by the registration of that ISBN, and the retry path makes no call. The ISBN sent passes the backend's validation. Success shows the book. Failure shows the message and the 409 book if there is one. `loading` ends false. |
| BookList.BookListPage.constructor | frontend/src/components/BookList.js:7-11 | The initial state: no books, ordering `-created_at`, no target, no message, loading. |
| BookList.BookListPage.FetchBooks | frontend/src/components/BookList.js:13-23 | The requested ordering is the given one. Success replaces the list. Failure keeps the list and shows the message. `loading` ends false. |
| BookList.BookListPage.HandleDelete | frontend/src/components/BookList.js:29-40 | Without a target nothing changes and nothing is sent. Otherwise the target's id is sent. Success removes exactly the books with that id, in order, and clears the message. Failure keeps the list and shows the message. The target is cleared either way. |
| BookList.DefaultRequestListsNewestFirst | frontend/src/components/BookList.js:8 | The page's initial ordering, and `getBooks` without an ordering, both list newest first, the same as the backend's default. |
| BookList.WithoutIdCounts | frontend/src/components/BookList.js:33 | After the removal, a book with the deleted id occurs 0 times. Every other book occurs as often as before. |
| BookList.WithoutIdKeepsSorted | frontend/src/components/BookList.js:33 | Removing books from a sorted list leaves it sorted. |
| BookList.WithoutIdInsert | frontend/src/components/BookList.js:33 | Removing books by id after inserting a book equals inserting it (unless it is removed too) after removing them. |
| BookList.WithoutIdSort | frontend/src/components/BookList.js:33 | Removing books by id after sorting gives the same sequence as sorting after removing them. This holds because the model's sort is stable. |
| BookList.LocalRemovalMatchesReload | frontend/src/components/BookList.js:33 | The list shown after a local removal is sorted. It is equal, as a sequence, to the model's reload of the list after the backend delete. The equality rests on the model breaking ties by creation order. The `created_at` orderings have no ties. For `title`, a real database may order equal titles differently, so the program guarantees only the same books sorted by the same key. |
| SearchPage.SearchPageState.constructor | frontend/src/components/Search.js:7-11 | The initial state: empty query, no results, not searched, not loading, no error. |
| SearchPage.SearchPageState.SetQuery | frontend/src/components/Search.js:47 | The query becomes the typed value. |
| SearchPage.SearchPageState.HandleSearch | frontend/src/components/Search.js:13-29 | A blank query changes nothing and sends nothing. Otherwise the trimmed, non-empty query is sent. Success replaces the results and sets `searched`. Failure keeps the results, leaves `searched` false and shows the message. `loading` ends false. |

## Left out

- Outbound HTTP, `raise_for_status`, `response.json()`, XML parsing and every axios call are external I/O. Each becomes a parameter: a parsed body, a request error, or a settled result.
- Invalid JSON from Google Books is not a separate case. `requests` raises a `RequestException` subclass for it, which the caller passes as `Raised(OtherRequestError)`.
- JSON fields that are present but `null`, or not dictionaries, are read as missing. In the source some of them raise an exception that is not a request error, and the framework turns it into a 500 response.
- XML namespace matching: the feed is an optional item with an optional title element. Which elements the namespaced query would match is not modelled.
- Models.BookTable.Create: the creation time is a counter, and ids come from a counter and are never reused. The real values come from the database clock and sequence.
- Models.BookTable.Create: a title longer than 255 characters is modelled as a database failure (500). A database that does not enforce `max_length` would store it instead.
- Models.BookTable.Create: a concurrent registration is only a fault parameter. Concurrency itself is not modelled.
- Views.BookCreate: the request's `isbn` is taken as given. The framework's default whitespace trimming of `CharField` input, and non-string JSON values, are framework behaviour and are not modelled.
- Serializers.ValidateIsbn: digits are ASCII `0`-`9`. Python's `isdigit` also accepts other Unicode digits.
- Text.Trim: the whitespace set is the common ASCII set plus U+00A0 and U+3000. Python's `strip` and JavaScript's `trim` each accept more characters, and they differ slightly from each other.
- Views.Matching: case-insensitivity is ASCII case folding. `icontains` depends on the database's Unicode and collation rules.
- Views.Sort: titles are compared by code point, while the real order is the database's collation.
- Views.Sort: the sort is stable, so books with equal keys keep their table (creation) order. The database promises no order among equal titles under `order_by('title')`. So `ListBooks` and `BookSearch` state only what the program guarantees: the result's books and their order by the key. The exact sequence is not stated.
- The interceptor's success handler returns the response unchanged. It is the identity, so it is not modelled.
- Rendering, routing, `useEffect` and cleanup, React's batching of state updates, the CORS configuration and logging are not modelled.
- `startScanner` and the camera library are not modelled. The camera itself cannot be modelled.
- The page handlers take the settled reply as given. What each backend reply decodes to is not modelled in the frontend.
