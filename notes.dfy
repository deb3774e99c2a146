/**
 * The note attached to every checkout or checkin result (BookOperationNote.java).
 */
module Notes {
  import opened Wrappers

  datatype BookOperationNote = Ok | AlreadyCheckedIn | ReplacedExisting | Unregistered | Error

  /** getMessage: the fixed text of each note; the note can be read back from it. */
  function Message(n: BookOperationNote): (m: string)
    ensures FromMessage(m) == Some(n)
  {
    match n
    case Ok => "Ok"
    case AlreadyCheckedIn => "Book was already checked in"
    case ReplacedExisting => "Book was already checked out, replaced with new record"
    case Unregistered => "Book is not registered in the catalog"
    case Error => "Error"
  }

  /** The note whose message is `m`, if any. */
  function FromMessage(m: string): Option<BookOperationNote> {
    if m == "Ok" then Some(Ok)
    else if m == "Book was already checked in" then Some(AlreadyCheckedIn)
    else if m == "Book was already checked out, replaced with new record" then Some(ReplacedExisting)
    else if m == "Book is not registered in the catalog" then Some(Unregistered)
    else if m == "Error" then Some(Error)
    else None
  }

  /** Reading a note back gives a note whose message is the text read. */
  lemma FromMessageIsInverse(m: string)
    ensures FromMessage(m).Some? ==> Message(FromMessage(m).value) == m
  {
  }

  /** The five messages are pairwise distinct. */
  lemma MessagesDistinct(a: BookOperationNote, b: BookOperationNote)
    ensures Message(a) == Message(b) <==> a == b
  {
    assert FromMessage(Message(a)) == Some(a);
  }

  /**
   * The text a store failure leaves in a result ("Error: " and the failure's
   * message) never reads as one of the five notes.
   */
  lemma ErrorTextIsNoNote(detail: string)
    ensures FromMessage("Error: " + detail).None?
  {
    var s := "Error: " + detail;
    assert s[0] == 'E' && |s| >= 7;
    assert s != "Ok" && s != "Error";
    assert s != Message(AlreadyCheckedIn) by { assert Message(AlreadyCheckedIn)[0] == 'B'; }
    assert s != Message(ReplacedExisting) by { assert Message(ReplacedExisting)[0] == 'B'; }
    assert s != Message(Unregistered) by { assert Message(Unregistered)[0] == 'B'; }
  }
}
