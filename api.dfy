/**
 * The frontend's API client: the response interceptor that labels network
 * failures, the error-message precedence shown to the user, and the
 * `getBooks` default. The HTTP calls themselves are outside the model;
 * a component receives each call's settled result.
 */
module Api {
  import opened Wrappers
  import opened Text
  import opened Models

  const MsgNoConnection := "つながりませんでした"
  const MsgDefault := "エラーがおきました"
  const DefaultOrdering := "-created_at"

  /** `error.response.data` as far as the frontend reads it. */
  datatype ErrorData = ErrorData(error: Option<string>, book: Option<Book>)

  /** `error.response`: the HTTP status and the decoded body, if any. */
  datatype ErrorResponse = ErrorResponse(status: nat, data: Option<ErrorData>)

  /** An axios error. The interceptor adds `friendlyMessage` to the object in place. */
  class AxiosError {
    const code: Option<string>
    const message: Option<string>
    const response: Option<ErrorResponse>
    var friendlyMessage: Option<string>

    constructor (code: Option<string>, message: Option<string>, response: Option<ErrorResponse>)
      ensures this.code == code && this.message == message && this.response == response
      ensures friendlyMessage == None
    {
      this.code := code;
      this.message := message;
      this.response := response;
      friendlyMessage := None;
    }
  }

  /** A settled request: the response data, or the rejected error. */
  datatype Settled<T> = Fulfilled(data: T) | Rejected(err: AxiosError)

  /** `error.code === 'ECONNABORTED' || error.message?.includes('timeout')` */
  predicate IsTimeout(code: Option<string>, message: Option<string>) {
    code == Some("ECONNABORTED") || (message.Some? && Contains(message.value, "timeout"))
  }

  /**
   * The interceptor's rejection handler: a timeout or an error without a
   * response is labelled "could not connect"; any other error keeps its
   * `friendlyMessage`. The same error is rejected again.
   */
  method OnRejected(error: AxiosError) returns (rejected: AxiosError)
    modifies error
    ensures rejected == error
    ensures IsTimeout(error.code, error.message) || error.response.None? ==>
      error.friendlyMessage == Some(MsgNoConnection)
    ensures !IsTimeout(error.code, error.message) && error.response.Some? ==>
      error.friendlyMessage == old(error.friendlyMessage)
  {
    if IsTimeout(error.code, error.message) {
      error.friendlyMessage := Some(MsgNoConnection);
    } else if error.response.None? {
      error.friendlyMessage := Some(MsgNoConnection);
    }
    rejected := error;
  }

  /** `err.response?.data?.error` */
  function ServerError(response: Option<ErrorResponse>): (e: Option<string>)
  {
    if response.Some? && response.value.data.Some? then response.value.data.value.error else None
  }

  /**
   * `getErrorMessage`: the server's `error` field when it is non-empty,
   * else the interceptor's `friendlyMessage` when set, else the generic
   * message. The result is never empty.
   */
  function GetErrorMessage(err: AxiosError): (m: string)
    reads err
    ensures Truthy(ServerError(err.response)) ==> m == ServerError(err.response).value
    ensures !Truthy(ServerError(err.response)) && Truthy(err.friendlyMessage) ==> m == err.friendlyMessage.value
    ensures !Truthy(ServerError(err.response)) && !Truthy(err.friendlyMessage) ==> m == MsgDefault
    ensures m != ""
  {
    if Truthy(ServerError(err.response)) then ServerError(err.response).value
    else if Truthy(err.friendlyMessage) then err.friendlyMessage.value
    else MsgDefault
  }

  /** After the interceptor, a request that got no response shows "could not connect". */
  lemma NoResponseShowsNoConnection(err: AxiosError)
    requires err.response.None? && err.friendlyMessage == Some(MsgNoConnection)
    ensures GetErrorMessage(err) == MsgNoConnection
  {
  }

  /** `err.response?.status === 409 && err.response?.data?.book`: the already-registered book, if any. */
  function ConflictBook(err: AxiosError): (b: Option<Book>)
    ensures b.Some? <==> err.response.Some? && err.response.value.status == 409
                         && err.response.value.data.Some? && err.response.value.data.value.book.Some?
    ensures b.Some? ==> b == err.response.value.data.value.book
  {
    if err.response.Some? && err.response.value.status == 409 && err.response.value.data.Some?
    then err.response.value.data.value.book
    else None
  }

  /** `getBooks(ordering = '-created_at')`: the `ordering` parameter actually sent. */
  function GetBooksOrdering(ordering: Option<string>): (sent: string)
    ensures ordering.Some? ==> sent == ordering.value
    ensures ordering.None? ==> sent == DefaultOrdering
  {
    ordering.GetOr(DefaultOrdering)
  }
}
