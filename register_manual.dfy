/**
 * The manual registration page: the ISBN input is sanitised on every
 * change, and a submit sends a 10- or 13-digit ISBN and shows the result.
 */
module RegisterManual {
  import opened Wrappers
  import opened Text
  import opened Models
  import opened Serializers
  import opened Api

  const MaxInputLength: nat := 13
  const MsgWrongLength := "ISBNは10けたか13けたでいれてね"
  const MsgRegistered := "とうろくできました！"

  predicate HasIsbnLength(s: string) { |s| == 10 || |s| == 13 }

  /** The page's state, one field per `useState`. */
  class RegisterManualPage {
    var isbn: string
    var message: Option<string>
    var messageType: string
    var registeredBook: Option<Book>
    var loading: bool

    /** The input only ever holds digits, at most 13 of them. */
    ghost predicate Valid()
      reads this
    {
      AllDigits(isbn) && |isbn| <= MaxInputLength
    }

    constructor ()
      ensures Valid()
      ensures isbn == "" && message == None && messageType == "" && registeredBook == None && !loading
    {
      isbn := "";
      message := None;
      messageType := "";
      registeredBook := None;
      loading := false;
    }

    /**
     * `handleChange`: non-digits are dropped; a result longer than 13
     * digits is ignored (the input keeps its previous value, it is not
     * truncated).
     */
    method HandleChange(value: string)
      requires Valid()
      modifies this`isbn
      ensures Valid()
      ensures |KeepDigits(value)| <= MaxInputLength ==> isbn == KeepDigits(value)
      ensures |KeepDigits(value)| > MaxInputLength ==> isbn == old(isbn)
    {
      var digits := KeepDigits(value);
      if |digits| <= MaxInputLength {
        isbn := digits;
      }
    }

    /**
     * `handleSubmit`, with `reply` the settled `registerBook` call. A length
     * other than 10 or 13 only sets the error message; otherwise the ISBN
     * is sent, and the page shows the registered book (success), or the
     * error message and, for a 409 that carries one, the existing book.
     * `loading` is false once the call has settled.
     */
    method HandleSubmit(reply: Settled<Book>) returns (sent: Option<string>)
      requires Valid()
      modifies this
      ensures Valid()
      ensures !HasIsbnLength(old(isbn)) ==>
        && sent == None && message == Some(MsgWrongLength) && messageType == "error"
        && isbn == old(isbn) && registeredBook == old(registeredBook) && loading == old(loading)
      ensures HasIsbnLength(old(isbn)) ==>
        && sent == Some(old(isbn)) && ValidateIsbnField(sent) == Success(old(isbn)) && !loading
        && (reply.Fulfilled? ==>
              registeredBook == Some(reply.data) && message == Some(MsgRegistered)
              && messageType == "success" && isbn == "")
        && (reply.Rejected? ==>
              registeredBook == ConflictBook(reply.err) && message == Some(GetErrorMessage(reply.err))
              && messageType == "error" && isbn == old(isbn))
    {
      if !HasIsbnLength(isbn) {
        message := Some(MsgWrongLength);
        messageType := "error";
        return None;
      }

      loading := true;
      message := None;
      registeredBook := None;

      sent := Some(isbn);
      match reply {
        case Fulfilled(book) =>
          registeredBook := Some(book);
          message := Some(MsgRegistered);
          messageType := "success";
          isbn := "";
        case Rejected(err) =>
          message := Some(GetErrorMessage(err));
          messageType := "error";
          var existing := ConflictBook(err);
          if existing.Some? {
            registeredBook := existing;
          }
      }
      loading := false;
    }
  }
}
