/**
 * The ISBN lookup chain: the primary catalog (NDL Search) supplies the
 * title, the secondary source (Google Books) is consulted only to fill in
 * a missing cover. HTTP and parsing are outside the model: each client
 * receives what its GET produced, as a parsed body or the exception it
 * raised (including `raise_for_status`).
 */
module Services {
  import opened Wrappers
  import opened Text

  /** The `requests` exceptions the chain can see. */
  datatype RequestError =
    | Timeout             // `requests.exceptions.Timeout` (connect or read)
    | ConnectionError     // `requests.exceptions.ConnectionError` that is not a timeout
    | HttpError(status: int)  // raised by `raise_for_status` on a non-2xx reply
    | OtherRequestError   // any other `RequestException`

  /** What one outbound GET produced. */
  datatype Fetched<T> = Body(content: T) | Raised(error: RequestError)

  /** The NDL feed after parsing: not well-formed, or an optional first `<item>`. */
  datatype NdlFeed = Malformed | Feed(item: Option<NdlItem>)
  /** An `<item>` with an optional `<title>` element. */
  datatype NdlItem = NdlItem(titleElement: Option<TitleElement>)
  /** A `<title>` element; `text` is None for an empty element. */
  datatype TitleElement = TitleElement(text: Option<string>)

  /** The Google Books JSON, with every field optional as `dict.get` treats it. */
  datatype Volumes = Volumes(totalItems: Option<int>, items: Option<seq<Volume>>)
  datatype Volume = Volume(volumeInfo: Option<VolumeInfo>)
  datatype VolumeInfo = VolumeInfo(imageLinks: Option<ImageLinks>)
  datatype ImageLinks = ImageLinks(thumbnail: Option<string>, smallThumbnail: Option<string>)

  /** The `{'title': ..., 'cover_image_url': ...}` dict of a found book. */
  datatype BookInfo = BookInfo(title: string, coverImageUrl: Option<string>)

  /** A client's answer: a value, "no result" (`None`), or a raised request error. */
  datatype Outcome<+T> = Ok(value: T) | NoResult | Err(error: RequestError)

  /** The catalog answered with an item whose title is present and non-empty. */
  predicate HasTitle(feed: NdlFeed) {
    feed.Feed? && feed.item.Some? && feed.item.value.titleElement.Some?
    && Truthy(feed.item.value.titleElement.value.text)
  }

  /**
   * `fetch_book_from_ndl` after the GET: request errors propagate; malformed
   * XML, a missing item and a missing or empty title are "no result"; a
   * found book has a non-empty title and never a cover.
   */
  function FetchBookFromNdl(response: Fetched<NdlFeed>): (r: Outcome<BookInfo>)
    ensures response.Raised? ==> r == Err(response.error)
    ensures r.Err? <==> response.Raised?
    ensures response.Body? ==> (r.NoResult? <==> !HasTitle(response.content))
    ensures response.Body? && HasTitle(response.content) ==> r.Ok?
    ensures r.Ok? ==>
              && response.Body? && HasTitle(response.content)
              && r.value.title == response.content.item.value.titleElement.value.text.value
              && r.value.title != "" && r.value.coverImageUrl == None
  {
    match response
    case Raised(e) => Err(e)
    case Body(feed) =>
      match feed
      case Malformed => NoResult
      case Feed(item) =>
        if item.None? then NoResult
        else
          var title := match item.value.titleElement
            case Some(element) => element.text
            case None => None;
          if !Truthy(title) then NoResult
          else Ok(BookInfo(title.value, None))
  }

  const HttpScheme := "http://"
  const HttpsScheme := "https://"

  /** One scheme substitution: a URL starting with `http://` gets `https://` instead; any other URL is kept. */
  function ToHttps(url: string): (r: string)
    ensures !StartsWith(r, HttpScheme)
    ensures StartsWith(url, HttpScheme) ==> r == HttpsScheme + url[|HttpScheme|..]
    ensures !StartsWith(url, HttpScheme) ==> r == url
  {
    if StartsWith(url, HttpScheme) then
      var r := HttpsScheme + url[|HttpScheme|..];
      assert r[4] != HttpScheme[4];
      r
    else url
  }

  /** Normalising twice is normalising once. */
  lemma ToHttpsIdempotent(url: string)
    ensures ToHttps(ToHttps(url)) == ToHttps(url)
  {
  }

  /** The response lists no volume: `totalItems` missing or 0, or `items` missing or empty. */
  predicate NoVolumes(data: Volumes) {
    data.totalItems.GetOr(0) == 0 || data.items.GetOr([]) == []
  }

  /** `items[0].get('volumeInfo', {}).get('imageLinks', {})`, a missing level read as empty. */
  function FirstImageLinks(data: Volumes): (links: ImageLinks)
    requires !NoVolumes(data)
  {
    var volume := data.items.value[0];
    if volume.volumeInfo.None? || volume.volumeInfo.value.imageLinks.None? then ImageLinks(None, None)
    else volume.volumeInfo.value.imageLinks.value
  }

  /**
   * `fetch_cover_from_google_books` after the GET: request errors
   * propagate; no volume gives no cover; otherwise the first volume's
   * `thumbnail` when it is non-empty, else its `smallThumbnail`, with an
   * `http://` scheme rewritten to `https://`.
   */
  function FetchCoverFromGoogleBooks(response: Fetched<Volumes>): (r: Outcome<string>)
    ensures response.Raised? ==> r == Err(response.error)
    ensures response.Body? && NoVolumes(response.content) ==> r == NoResult
    ensures r.Ok? ==> !StartsWith(r.value, HttpScheme)
    ensures response.Body? && !NoVolumes(response.content) ==>
      var links := FirstImageLinks(response.content);
      if Truthy(links.thumbnail) then r == Ok(ToHttps(links.thumbnail.value))
      else if links.smallThumbnail.Some? then r == Ok(ToHttps(links.smallThumbnail.value))
      else r == NoResult
  {
    match response
    case Raised(e) => Err(e)
    case Body(data) =>
      if data.totalItems.GetOr(0) == 0 then NoResult
      else if data.items.GetOr([]) == [] then NoResult
      else
        var links := FirstImageLinks(data);
        var coverUrl := if Truthy(links.thumbnail) then links.thumbnail else links.smallThumbnail;
        match coverUrl
        case None => NoResult
        case Some(url) => Ok(if url != "" && StartsWith(url, HttpScheme) then ToHttps(url) else url)
  }

  /** Which source a lookup consulted. */
  datatype Source = Ndl | GoogleBooks

  /** The primary result is a book that still lacks a cover, so the secondary source is consulted. */
  predicate NeedsCover(primary: Outcome<BookInfo>) {
    primary.Ok? && !Truthy(primary.value.coverImageUrl)
  }

  /**
   * `lookup_book_by_isbn`, given what each client returns or raises for
   * the ISBN. The error policy is asymmetric: primary errors and "no
   * result" come back as they are, a secondary error is absorbed and the
   * title kept; the secondary answer matters only when the primary found a
   * book without a cover.
   */
  function Lookup(primary: Outcome<BookInfo>, secondary: Outcome<string>): (r: Outcome<BookInfo>)
    ensures !primary.Ok? ==> r == primary
    ensures r.Err? ==> r == primary
    ensures primary.Ok? ==> r.Ok? && r.value.title == primary.value.title
    ensures !NeedsCover(primary) || secondary.Err? ==> r == primary
    ensures NeedsCover(primary) && secondary.Ok? ==> r.value.coverImageUrl == Some(secondary.value)
    ensures NeedsCover(primary) && secondary.NoResult? ==> r.value.coverImageUrl == None
  {
    if !NeedsCover(primary) then primary
    else
      match secondary
      case Ok(url) => Ok(primary.value.(coverImageUrl := Some(url)))
      case NoResult => Ok(primary.value.(coverImageUrl := None))
      case Err(_) => primary
  }

  /**
   * The orchestrator as the source runs it: it keeps the primary's dict,
   * overwrites its cover with the secondary's answer, and records which
   * sources it called.
   */
  method LookupBookByIsbn(primary: Outcome<BookInfo>, secondary: Outcome<string>)
    returns (r: Outcome<BookInfo>, calls: seq<Source>)
    ensures r == Lookup(primary, secondary)
    ensures calls == if NeedsCover(primary) then [Ndl, GoogleBooks] else [Ndl]
  {
    calls := [Ndl];
    var bookInfo := primary;
    if bookInfo.NoResult? || bookInfo.Err? {
      return bookInfo, calls;
    }
    if !Truthy(bookInfo.value.coverImageUrl) {
      calls := calls + [GoogleBooks];
      match secondary {
        case Ok(url) =>
          bookInfo := Ok(bookInfo.value.(coverImageUrl := Some(url)));
        case NoResult =>
          bookInfo := Ok(bookInfo.value.(coverImageUrl := None));
        case Err(_) =>
      }
    }
    r := bookInfo;
  }

  /**
   * With the real NDL client in front, a found book's cover can only come
   * from Google Books, and never as plain `http://`.
   */
  lemma CoverComesFromSecondary(ndl: Fetched<NdlFeed>, google: Fetched<Volumes>)
    ensures var r := Lookup(FetchBookFromNdl(ndl), FetchCoverFromGoogleBooks(google));
      r.Ok? ==>
        && r.value.title != ""
        && (r.value.coverImageUrl.Some? <==> FetchCoverFromGoogleBooks(google).Ok?)
        && (r.value.coverImageUrl.Some? ==> !StartsWith(r.value.coverImageUrl.value, HttpScheme))
  {
  }
}
