/** The `ErrorCodes` values the output file and the input file reader report instead of throwing. */
module Errors {

  datatype ErrorCode =
    | InputFileNotFound
    | InputFileDirectoryNotFound
    | InputFilePathTooLong
    | InputFileReadUnauthorized
    | OutputFileNotFound
    | OutputFileDirectoryNotFound
    | OutputFilePathTooLong
    | OutputFileReadUnauthorized
    | OutputFileHaveWrongFormatOrAlreadyCommitted
    | OutputFileUnexpectedlyReduced
}
