/**
 The error values the sync engine returns. Each constructor stands for one
 `return errors.…` site of the engine, or for one failure of a collaborator
 (local file system, object store, directory walk) that the engine passes on.
 */
module Failures {

  datatype Option<+T> = None | Some(value: T)

  datatype Result<+T> = Ok(value: T) | Err(error: Error)

  /** Why a local file could not be opened or read. */
  datatype IoCause = NotExist | Denied

  datatype Error =
    | ReadFailed(path: string, cause: IoCause)   // opening or reading a local file
    | NoPointerSuffix(path: string)              // Get on a path without ".sha1"
    | StoreFailed(key: string)                   // PutObject or GetObject
    | NotGzip                                    // gzip.NewReader refuses the blob
    | MissingEntry                               // tarReader.Next finds no further entry
    | NoHeaderEntry                              // first entry is not "header"
    | HeaderNotJson                              // json.Unmarshal of the header fails
    | NoDataEntry                                // second entry is not "data"
    | CreateFailed(path: string)                 // os.Create of the target
    | ChmodFailed(path: string)                  // Chmod of the target
    | WriteFailed(path: string)                  // ioutil.WriteFile of the pointer file
    | WalkFailed(path: string)                   // filepath.Walk cannot stat or list a path
    | PointerMalformed(path: string)             // corrected Get only: pointer is not 40 characters
    | VersionUnsupported(version: int)           // corrected Get only: header version is not 1
}
