/** The reader's error values (`exif::Error`), restricted to the kinds this core raises. */
module ExifError {

  datatype IoErrorKind = UnexpectedEof

  datatype Error =
    | InvalidFormat(msg: string)
    | BlankValue(msg: string)
    | NotFound(container: string)
    | Io(kind: IoErrorKind)
}
