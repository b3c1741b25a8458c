/**
 * The exceptions the core raises, with the messages their constructors build
 * (ImageNotFoundException.java, InvalidFileTypeException.java, EmptyFileException.java),
 * and the other exceptions of the services, which carry their message only.
 */
module Exceptions {
  import opened Wrappers
  import opened Text
  import opened Entities

  datatype Error =
    | CustomerNotFound(message: string)             // CustomerNotFoundException
    | EmptyFile                                     // EmptyFileException
    | InvalidFileType(contentType: Option<string>)  // InvalidFileTypeException; the type may be null
    | ImageNotFound(imageId: ImageId)               // ImageNotFoundException
    | DataIntegrityViolation(constraint: string)    // the database refused a row
    | RuntimeError(message: string)                 // any other RuntimeException

  const EmptyFileMessage: string := "File is empty. Please provide a valid file."
  const ImageNotFoundPrefix: string := "Image not found with id: "
  const InvalidFileTypePrefix: string := "File must be an image. Invalid content type: "

  /** Java's rendering of a possibly-null string inside a concatenation. */
  function NullableText(s: Option<string>): string {
    if s.Some? then s.value else "null"
  }

  /** getMessage() of each exception. */
  function Message(e: Error): string {
    match e
    case CustomerNotFound(m) => m
    case EmptyFile => EmptyFileMessage
    case InvalidFileType(ct) => InvalidFileTypePrefix + NullableText(ct)
    case ImageNotFound(id) => ImageNotFoundPrefix + NatToString(id)
    case DataIntegrityViolation(c) => "could not execute statement; constraint [" + c + "]"
    case RuntimeError(m) => m
  }

  /** The not-found message names the id it was built from, and only that id. */
  lemma ImageNotFoundMessageNamesId(id: ImageId)
    ensures StartsWith(Message(ImageNotFound(id)), ImageNotFoundPrefix)
    ensures var rest := Message(ImageNotFound(id))[|ImageNotFoundPrefix|..];
            AllDigits(rest) && ParseNat(rest) == id
  {
    var m := Message(ImageNotFound(id));
    assert m[|ImageNotFoundPrefix|..] == NatToString(id);
    ParseNatToString(id);
  }

  /** Two not-found exceptions with the same message were raised for the same id. */
  lemma ImageNotFoundMessageInjective(a: ImageId, b: ImageId)
    ensures Message(ImageNotFound(a)) == Message(ImageNotFound(b)) ==> a == b
  {
    PrefixedIdInjective(ImageNotFoundPrefix, a, b);
  }

  /** The invalid-type message ends with the declared content type, or "null" when none was declared. */
  lemma InvalidFileTypeMessageNamesType(ct: Option<string>)
    ensures StartsWith(Message(InvalidFileType(ct)), InvalidFileTypePrefix)
    ensures Message(InvalidFileType(ct))[|InvalidFileTypePrefix|..] == (if ct.Some? then ct.value else "null")
  {
  }
}
