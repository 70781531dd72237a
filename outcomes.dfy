/** Result values shared by the whole model.

    The script reports every failure through finish() (print and exit, or a
    Robot Framework log line) or lets a Python exception escape. Here each of
    those ends becomes a Failure value; how it is presented is not modelled.
 */
module Outcomes {

  /** An octet as carried on the wire. */
  type byte = x: int | 0 <= x < 256

  datatype Option<+T> = None | Some(value: T)

  datatype Result<+T, +E> = Success(value: T) | Failure(error: E)

  /** Why an operation stopped. */
  datatype Failure =
    | InvalidAddress                       // isIpv4 said no
    | PortNotRecognized(port: string)      // int() refused the port after ':'
    | OffsetNotDecimal(text: string)       // int() refused the merker offset
    | OffsetOutOfRange(offset: int)        // merker offset outside 0..3
    | UnknownScope(scope: string)          // Robot read scope not recognised
    | ConnectTimeout                       // connect() timed out
    | NoReply                              // recv() timed out: no answer to a frame
    | CotpSyncFailed                       // no COTP connection confirm
    | SetupFailed(response: seq<byte>)      // S7 setup communication refused
    | ReadRejected(response: seq<byte>)     // read response header reports an error
    | PutGetDisabled                       // item error and trailing 0x8104
    | ItemReadFailed(s7Data: seq<byte>)     // any other item error
    | ValueError                           // int() of an empty or non-numeric text
    | TypeError                            // bin() of a text, unhexlify of odd or non-hex text
}
