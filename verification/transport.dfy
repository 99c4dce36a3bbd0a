/**
 * `tesmart.SendCommand(ip, port, hexCommand, debug)`: decode the command,
 * open one TCP connection, write the bytes, read exactly six reply bytes
 * with `io.ReadFull`, and return them as lower-case hex.
 *
 * The network is not modelled: a `Link` value says what the device at the
 * endpoint would do, and a `Contact` value records how far an exchange got.
 */
module Transport {
  import opened Results
  import opened Hex

  /** What happens on the connection once the device has sent what it sends. */
  datatype StreamEnd =
    | Eof      // the device closes the connection
    | Reset    // the read fails: the connection is reset, or a read deadline expires
    | Silent   // the connection stays open and nothing more arrives

  /** What the device at the configured endpoint does during one exchange. */
  datatype Link =
    | Refused                                    // `net.DialTimeout` fails
    | WriteError                                 // connected, but `Write` fails
    | Delivers(bytes: seq<byte>, end: StreamEnd) // sends `bytes`, then `end` happens

  /** How far an exchange got. */
  datatype Contact =
    | NoContact                  // no connection was attempted
    | Dialed                     // a connection was attempted but nothing was written
    | Wrote(payload: seq<byte>)  // `payload` was handed to `Write`

  /** Why `io.ReadFull` stopped short. */
  datatype ReadError = EndOfStream | UnexpectedEndOfStream | ConnectionError

  /** How `io.ReadFull` ends: with a full buffer, with an error, or never. */
  datatype Fill = Filled(reply: seq<byte>) | Failed(error: ReadError) | Waits

  datatype SendError =
    | BadHex(hex: HexError)
    | DialFailed
    | WriteFailed
    | ReadFailed(read: ReadError)

  /**
   * A call of `SendCommand`: it returns Go's `(string, error)` pair, or it
   * never returns; either way with the contact the exchange made.
   */
  datatype Sent =
    | Returned(response: string, err: Option<SendError>, contact: Contact)
    | Blocked(contact: Contact)
  {
    predicate Succeeded() {
      Returned? && err.None?
    }
  }

  /** A command's outcome: it finishes with a result, or it hangs. */
  datatype Run<T, E> =
    | Done(result: Result<T, E>, contact: Contact)
    | Hangs(contact: Contact)
  {
    predicate Succeeded() {
      Done? && result.Ok?
    }
  }

  /** The reply length of the TeSmart protocol. */
  const ReplyLength: nat := 6

  /**
   * `io.ReadFull` into a six-byte buffer. `SendCommand` sets no read
   * deadline, so a device that falls silent before six bytes keeps it
   * waiting forever.
   */
  function ReadFull(bytes: seq<byte>, end: StreamEnd): (r: Fill)
    ensures r.Filled? <==> |bytes| >= ReplyLength
    ensures r.Filled? ==> r.reply == bytes[..ReplyLength]
    ensures r.Waits? <==> |bytes| < ReplyLength && end == Silent
    ensures r.Failed? && end == Eof ==>
              (r.error == EndOfStream <==> bytes == []) &&
              (r.error == UnexpectedEndOfStream <==> bytes != [])
    ensures r.Failed? && end == Reset ==> r.error == ConnectionError
  {
    if |bytes| >= ReplyLength then Filled(bytes[..ReplyLength])
    else if end == Silent then Waits
    else if end == Reset then Failed(ConnectionError)
    else if bytes == [] then Failed(EndOfStream)
    else Failed(UnexpectedEndOfStream)
  }

  function SendCommand(hexCommand: string, link: Link): (r: Sent)
    // a malformed command fails before any connection is attempted
    ensures Decode(hexCommand).Err? ==>
              r == Returned("", Some(BadHex(Decode(hexCommand).error)), NoContact)
    // every connection that opens is handed exactly the decoded command
    ensures Decode(hexCommand).Ok? ==>
              r.contact == (if link.Refused? then Dialed else Wrote(Decode(hexCommand).value))
    ensures r.Returned? && r.err.Some? ==> r.response == ""
    // a device that falls silent before six bytes makes the call wait forever
    ensures r.Blocked? <==>
              Decode(hexCommand).Ok? && link.Delivers? && |link.bytes| < ReplyLength && link.end == Silent
    ensures r.Succeeded() <==>
              Decode(hexCommand).Ok? && link.Delivers? && |link.bytes| >= ReplyLength
    ensures r.Succeeded() ==> |r.response| == 2 * ReplyLength && IsLowerHex(r.response)
    ensures r.Succeeded() ==> Decode(r.response) == Ok(link.bytes[..ReplyLength])
    ensures Decode(hexCommand).Ok? && link.Delivers? && |link.bytes| < ReplyLength && link.end != Silent ==>
              r.Returned? && r.err.Some? && r.err.value.ReadFailed?
  {
    match Decode(hexCommand)
    case Err(e) => Returned("", Some(BadHex(e)), NoContact)
    case Ok(cmdBytes) =>
      match link
      case Refused => Returned("", Some(DialFailed), Dialed)
      case WriteError => Returned("", Some(WriteFailed), Wrote(cmdBytes))
      case Delivers(bytes, end) =>
        match ReadFull(bytes, end)
        case Waits => Blocked(Wrote(cmdBytes))
        case Failed(e) => Returned("", Some(ReadFailed(e)), Wrote(cmdBytes))
        case Filled(reply) =>
          DecodeEncode(reply);
          Returned(Encode(reply), None, Wrote(cmdBytes))
  }

  /** The reply string holds the delivered bytes in order, two digits each. */
  lemma SendCommandReplyBytes(hexCommand: string, link: Link, k: nat)
    requires SendCommand(hexCommand, link).Succeeded() && k < ReplyLength
    ensures ByteAt(SendCommand(hexCommand, link).response, k) == link.bytes[k]
  {
  }

  /** A malformed command never depends on the device: the link is not consulted. */
  lemma BadCommandIgnoresLink(hexCommand: string, a: Link, b: Link)
    requires Decode(hexCommand).Err?
    ensures SendCommand(hexCommand, a) == SendCommand(hexCommand, b)
    ensures SendCommand(hexCommand, a).contact == NoContact
  {
  }
}
