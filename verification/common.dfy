/** Shared vocabulary of the backend model: document identities, optional
    values, the route-level error outcomes and two small string helpers. */
module Common {

  /** A document identity (a MongoDB ObjectId, abstracted to a number). */
  type Id = nat

  datatype Option<+T> = None | Some(value: T) {
    function GetOr(default: T): T {
      match this
      case Some(v) => v
      case None => default
    }
  }

  /** The failures a route answers with instead of a success body. */
  datatype Error =
    | ValidationFailed    // express-validator rejected the body
    | InvalidFolderType   // folder type outside the closed set
    | NoFileUploaded      // the upload middleware delivered no file
    | NotAnImage          // calendar upload whose MIME type is not image/*
    | Conflict            // the teacher already has a class in that slot (a 400, not a 409)
    | NotFound            // referenced teacher, schedule, folder or file is absent
    | ServerError         // the store refused the document or a file operation threw

  datatype Result<+T> = Ok(value: T) | Err(error: Error)

  /** What the upload middleware reports about a received file: the stored
      name, the client's name, the stored path, the size and the MIME type. */
  datatype UploadMeta = UploadMeta(fileName: string, originalName: string, path: string,
                                   size: int, mimeType: string)

  predicate StartsWith(s: string, prefix: string) {
    |prefix| <= |s| && s[..|prefix|] == prefix
  }

  /** The first `n` elements of `s`, or all of them when there are fewer. */
  function Take<T>(s: seq<T>, n: nat): (r: seq<T>)
    ensures |r| == if |s| < n then |s| else n
    ensures forall i :: 0 <= i < |r| ==> r[i] == s[i]
  {
    if |s| <= n then s else s[..n]
  }
}
