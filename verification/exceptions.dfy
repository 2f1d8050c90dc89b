/** The exceptions the modelled code raises or lets through, as values. */
module Exceptions {

  datatype Exception =
    /** `ArgumentException` with its message. */
    | ArgumentException(message: string)
    /** `ArgumentNullException` naming the null parameter (LINQ on a null source). */
    | ArgumentNullException(paramName: string)
    /** `FileNotFoundException` with its message. */
    | FileNotFoundException(message: string)
    /** `IndexOutOfRangeException` from an array read past its end. */
    | IndexOutOfRangeException
    /** `NullReferenceException` from a member access on null. */
    | NullReferenceException
    /** Whatever an external collaborator (FFmpeg, ZXing, ImageSharp, MongoDB,
        the message broker, the disk) throws; its contents are not modelled. */
    | CollaboratorFault(description: string)
}
