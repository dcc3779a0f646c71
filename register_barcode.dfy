/**
 * The barcode registration page: a decoded barcode is reduced to its
 * digits; a 10- or 13-digit ISBN stops the scanner and is sent.
 */
module RegisterBarcode {
  import opened Wrappers
  import opened Text
  import opened Models
  import opened Serializers
  import opened Api

  const MsgRetry := "もういちどためしてください"
  const MsgRegistered := "とうろくできました！"

  /** The external calls a barcode handler makes, in order. */
  datatype Call = ScannerStop | RegisterBook(isbn: string)

  /** The page's state; `scannerActive` stands for `scannerRef.current !== null`. */
  class RegisterBarcodePage {
    var message: Option<string>
    var messageType: string
    var registeredBook: Option<Book>
    var scanning: bool
    var loading: bool
    var scannerActive: bool

    constructor ()
      ensures message == None && messageType == "" && registeredBook == None
      ensures !scanning && !loading && !scannerActive
    {
      message := None;
      messageType := "";
      registeredBook := None;
      scanning := false;
      loading := false;
      scannerActive := false;
    }

    /** `stopScanner`: the scanner is released (a failing `stop()` is ignored) and scanning ends. */
    method StopScanner()
      modifies this`scannerActive, this`scanning
      ensures !scannerActive && !scanning
    {
      // mirrors `if (scannerRef.current)`: only a live scanner is stopped and released
      if scannerActive {
        scannerActive := false;
      }
      scanning := false;
    }

    /**
     * `handleBarcode`, with `reply` the settled `registerBook` call. The
     * candidate is the decoded text's digits; a length other than 10 or 13
     * only sets the retry message and keeps scanning. Otherwise the scanner
     * is stopped, the ISBN sent, and the page shows the registered book, or
     * the error message and, for a 409 that carries one, the existing book.
     * `calls` records the external calls in the order they are made.
     */
    method HandleBarcode(decodedText: string, reply: Settled<Book>) returns (sent: Option<string>, calls: seq<Call>)
      modifies this
      ensures var isbn := KeepDigits(decodedText);
        && (!(|isbn| == 10 || |isbn| == 13) ==>
              && sent == None && calls == [] && message == Some(MsgRetry) && messageType == "error"
              && scannerActive == old(scannerActive) && scanning == old(scanning)
              && registeredBook == old(registeredBook) && loading == old(loading))
        && ((|isbn| == 10 || |isbn| == 13) ==>
              && sent == Some(isbn) && ValidateIsbnField(sent) == Success(isbn)
              && calls == [ScannerStop, RegisterBook(isbn)]
              && !scannerActive && !scanning && !loading
              && (reply.Fulfilled? ==>
                    registeredBook == Some(reply.data) && message == Some(MsgRegistered) && messageType == "success")
              && (reply.Rejected? ==>
                    registeredBook == ConflictBook(reply.err) && message == Some(GetErrorMessage(reply.err))
                    && messageType == "error"))
    {
      calls := [];
      var isbn := KeepDigits(decodedText);
      if |isbn| != 10 && |isbn| != 13 {
        message := Some(MsgRetry);
        messageType := "error";
        return None, calls;
      }

      StopScanner();
      calls := calls + [ScannerStop];
      loading := true;
      message := None;
      registeredBook := None;

      sent := Some(isbn);
      calls := calls + [RegisterBook(isbn)];
      match reply {
        case Fulfilled(book) =>
          registeredBook := Some(book);
          message := Some(MsgRegistered);
          messageType := "success";
        case Rejected(err) =>
          message := Some(GetErrorMessage(err));
          messageType := "error";
          var existing := ConflictBook(err);
          if existing.Some? {
            registeredBook := existing;
          }
      }
      loading := false;
    }
  }
}
