/** The outcome codes the file utilities return, each with its fixed message. */
module ReturnCodes {

  datatype ReturnCode =
    | Success
    | FileDoesNotExist
    | DirectoryCreationError
    | FileMoveError
    | InvalidCopyLocation
    | DirectoryDeleteError
    | FileDeleteError

  /** Every constant, in declaration order. */
  const AllCodes: seq<ReturnCode> := [
    Success, FileDoesNotExist, DirectoryCreationError, FileMoveError,
    InvalidCopyLocation, DirectoryDeleteError, FileDeleteError]

  /** getMessage: the text given in the constant's declaration. */
  function Message(c: ReturnCode): (msg: string)
    ensures |msg| > 0
  {
    match c
    case Success => "Success"
    case FileDoesNotExist => "File does not exist"
    case DirectoryCreationError => "Directory creation error"
    case FileMoveError => "File move error"
    case InvalidCopyLocation => "Invalid copy location"
    case DirectoryDeleteError => "Directory delete error"
    case FileDeleteError => "File delete error"
  }

  /** There are exactly seven codes, listed once each. */
  lemma AllCodesComplete()
    ensures |AllCodes| == 7
    ensures forall c: ReturnCode :: c in AllCodes
    ensures forall i, j | 0 <= i < j < |AllCodes| :: AllCodes[i] != AllCodes[j]
  {
    forall c: ReturnCode
      ensures c in AllCodes
    {
      var i := match c
        case Success => 0
        case FileDoesNotExist => 1
        case DirectoryCreationError => 2
        case FileMoveError => 3
        case InvalidCopyLocation => 4
        case DirectoryDeleteError => 5
        case FileDeleteError => 6;
      assert AllCodes[i] == c;
    }
  }

  /** No two codes share a message, so a message identifies its code. */
  lemma MessageInjective(a: ReturnCode, b: ReturnCode)
    requires Message(a) == Message(b)
    ensures a == b
  {
  }
}
