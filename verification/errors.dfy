/** Python exceptions the service raises, catches or lets through. */
module Errors {
  datatype Kind =
    | FileNotFoundError
    | FileExistsError
    | NotADirectoryError
    | IsADirectoryError
    | PdfReadError
    | DependencyError
    | ValueError
    | AttributeError
    | NameError
    | IndexError
    | KeyError
    | BadZipFile
    | Exception

  /** A raised exception: a Python one with its message, or FastAPI's
      `HTTPException` with a status code and a detail. */
  datatype Exc =
    | Exc(kind: Kind, msg: string)
    | HttpException(status: nat, detail: string)

  /** The subclasses of `OSError` among the kinds above. */
  predicate IsOSError(e: Exc)
  {
    e.Exc? && e.kind in {FileNotFoundError, FileExistsError, NotADirectoryError, IsADirectoryError}
  }

  /** `str(e)`: the message, or the detail of an HTTP exception. */
  function Text(e: Exc): string
  {
    if e.Exc? then e.msg else e.detail
  }
}
