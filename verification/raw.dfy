/**
 * `tesmartctl raw <hex>`: send caller-supplied bytes and print whatever the
 * first read returns, up to 64 bytes. The command dials on its own, without
 * `SendCommand`.
 */
module Raw {
  import opened Results
  import opened Hex
  import opened Transport

  /** The size of the read buffer. */
  const BufferSize: nat := 64

  /** How many of `n` delivered bytes one read takes in. */
  function Received(n: nat): nat {
    if n < BufferSize then n else BufferSize
  }

  datatype RawError =
    | InvalidHexCommand(cause: HexError)
    | ConnectionFailed
    | SendingFailed
    | ReadingFailed

  /** What the command prints once the exchange went through. */
  datatype RawReport =
    | Response(hex: string)   // "Response: <hex>"
    | NoResponse              // "No response received"

  /**
   * One `conn.Read` into the 64-byte buffer. The delivered bytes are taken
   * to arrive together, so the read returns as many of them as fit. With no
   * bytes, a closed stream gives EOF, which is not an error; a reset, or a
   * silent device that outlasts the read deadline, is one.
   */
  function FirstRead(bytes: seq<byte>, end: StreamEnd): (r: Result<seq<byte>, RawError>)
    ensures r.Ok? ==> |r.value| <= BufferSize && r.value <= bytes
    ensures r.Ok? ==> r.value == bytes[..Received(|bytes|)]
    ensures r.Err? <==> bytes == [] && !end.Eof?
  {
    if bytes != [] then Ok(bytes[..Received(|bytes|)])
    else if end.Eof? then Ok([])
    else Err(ReadingFailed)
  }

  function RawRun(arg: string, link: Link): (r: Run<RawReport, RawError>)
    // a malformed argument fails before dialling
    // with deadlines on every step, the command always finishes
    ensures r.Done?
    ensures Decode(arg).Err? ==> r == Done(Err(InvalidHexCommand(Decode(arg).error)), NoContact)
    // every connection that opens is handed exactly the decoded argument
    ensures Decode(arg).Ok? && !link.Refused? ==> r.contact == Wrote(Decode(arg).value)
    ensures Decode(arg).Ok? && link.Refused? ==> r == Done(Err(ConnectionFailed), Dialed)
    ensures r.result == Ok(NoResponse) <==> Decode(arg).Ok? && link == Delivers([], Eof)
    ensures r.Succeeded() && r.result.value.Response? ==>
              link.Delivers? && 0 < |link.bytes| &&
              |r.result.value.hex| == 2 * Received(|link.bytes|) <= 2 * BufferSize &&
              IsLowerHex(r.result.value.hex) &&
              Decode(r.result.value.hex) == Ok(link.bytes[..Received(|link.bytes|)])
    ensures Decode(arg).Ok? && link.Delivers? && link.bytes != [] ==>
              r.Succeeded() && r.result.value.Response?
  {
    match Decode(arg)
    case Err(e) => Done(Err(InvalidHexCommand(e)), NoContact)
    case Ok(payload) =>
      match link
      case Refused => Done(Err(ConnectionFailed), Dialed)
      case WriteError => Done(Err(SendingFailed), Wrote(payload))
      case Delivers(bytes, end) =>
        match FirstRead(bytes, end)
        case Err(e) => Done(Err(e), Wrote(payload))
        case Ok(got) =>
          if |got| > 0 then
            DecodeEncode(got);
            Done(Ok(Response(Encode(got))), Wrote(payload))
          else Done(Ok(NoResponse), Wrote(payload))
  }
}
