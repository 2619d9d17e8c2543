/**
 * The crate-wide error kinds of src/error.rs. The `Io` variant, which wraps an
 * operating-system error, has no counterpart: this model reads no files.
 */
module Errors {

  datatype Error =
    | BadMagic            // an incorrect magic number has been encountered
    | DecodingError       // an invalid byte sequence for the given encoding
    | Eof                 // an unexpected end of file
    | MalformedMetadata   // incorrect syntax in the meta information
    | MisplacedMetadata   // the meta information was not the first string
    | PluralParsing       // an invalid Plural-Forms expression
    | UnknownEncoding     // an unknown encoding named in the metadata
}
