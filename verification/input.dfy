/**
 * `tesmartctl input get` and `tesmartctl input set <n>`: the frames they
 * send and the way they read the device's reply.
 */
module Input {
  import opened Results
  import opened Hex
  import opened Strconv
  import opened Transport

  /** The frame `input get` sends: AA BB 03 10 00 EE. */
  const GetInputFrame: string := "aabb031000ee"

  /** The prefix `input set` expects on its reply: AA BB 03 11. */
  const SwitchReplyPrefix: string := "aabb0311"

  /** The failures `input get` and `input set` report. */
  datatype InputError =
    | InvalidPortNumber(arg: string)          // the argument is not an integer
    | PortOutOfRange(port: int)               // the integer is outside 1..16
    | SendFailed(cause: SendError)            // `SendCommand` returned an error
    | InvalidResponseLength(response: string) // the reply is under 12 characters
    | PortParseFailed(reason: NumError)       // `input get` cannot read the port byte

  /** What `input set` reports once the switch command went out. */
  datatype SetReport =
    | SwitchedTo(port: nat)   // "switched to input N", N read from the reply
    | SwitchedUnparsed        // the reply's port byte is not hexadecimal
    | UnexpectedReply         // the reply does not start with AA BB 03 11

  /** The frame `input get` sends decodes to the six bytes of the protocol table. */
  lemma GetInputFrameBytes()
    ensures Decode(GetInputFrame) == Ok([0xAA, 0xBB, 0x03, 0x10, 0x00, 0xEE])
  {
    var s, bs := GetInputFrame, [0xAA, 0xBB, 0x03, 0x10, 0x00, 0xEE];
    assert ScanLowerHex(s, 0);
    assert ByteAt(s, 0) == 0xAA && ByteAt(s, 1) == 0xBB && ByteAt(s, 2) == 0x03;
    assert ByteAt(s, 3) == 0x10 && ByteAt(s, 4) == 0x00 && ByteAt(s, 5) == 0xEE;
    DecodeBytes(s, bs);
  }

  /** The reply prefix `input set` looks for spells AA BB 03 11. */
  lemma SwitchReplyPrefixBytes()
    ensures SwitchReplyPrefix == Encode([0xAA, 0xBB, 0x03, 0x11])
  {
  }

  /**
   * The frame `input set` renders with `aabb0301%02xee`. The operand is the
   * argument itself, not the argument minus one.
   */
  function SwitchFrame(port: int): (f: string)
    requires 1 <= port <= 16
    ensures |f| == 12 && IsLowerHex(f)
    ensures f[..8] == "aabb0301" && f[10..] == "ee"
    ensures Decode(f) == Ok([0xAA, 0xBB, 0x03, 0x01, port, 0xEE])
  {
    var f := "aabb0301" + Encode([port]) + "ee";
    assert AllHex(f) by {
      assert forall i :: 8 <= i < 10 ==> f[i] == Encode([port])[i - 8];
    }
    assert ByteAt(f, 4) == ByteAt(Encode([port]), 0);
    assert ByteAt(f, 0) == 0xAA && ByteAt(f, 1) == 0xBB && ByteAt(f, 2) == 0x03;
    assert ByteAt(f, 3) == 0x01 && ByteAt(f, 5) == 0xEE;
    DecodeBytes(f, [0xAA, 0xBB, 0x03, 0x01, port, 0xEE]);
    f
  }

  /** Argument handling of `input set`: an integer in 1..16 becomes its switch frame. */
  function SetInputCommand(arg: string): (r: Result<string, InputError>)
    ensures r.Ok? <==> IsSignedDecimal(arg) && 1 <= SignedValue(arg) <= 16
    ensures !(IsSignedDecimal(arg) && MinInt64 <= SignedValue(arg) <= MaxInt64) ==>
              r == Err(InvalidPortNumber(arg))
    ensures IsSignedDecimal(arg) && MinInt64 <= SignedValue(arg) <= MaxInt64 ==>
              (r.Err? <==> r == Err(PortOutOfRange(SignedValue(arg))))
    ensures r.Ok? ==> Decode(r.value) == Ok([0xAA, 0xBB, 0x03, 0x01, SignedValue(arg), 0xEE])
  {
    match Atoi(arg)
    case Err(_) => Err(InvalidPortNumber(arg))
    case Ok(n) =>
      if n < 1 || n > 16 then Err(PortOutOfRange(n))
      else Ok(SwitchFrame(n))
  }

  /** How `input get` reads the active port from a reply: byte 4, plus one. */
  function ActivePort(response: string): (r: Result<nat, InputError>)
    ensures |response| < 12 ==> r == Err(InvalidResponseLength(response))
    ensures |response| >= 12 ==> (r.Ok? <==> IsHexDigit(response[8]) && IsHexDigit(response[9]))
    ensures |response| >= 12 && r.Err? ==> r == Err(PortParseFailed(Syntax))
    ensures r.Ok? ==> r.value == ByteAt(response, 4) + 1 && 1 <= r.value <= 256
  {
    if |response| < 12 then Err(InvalidResponseLength(response))
    else
      var portHex := response[8..10];
      TwoDigitsFit(portHex);
      match ParseUint8Hex(portHex)
      case Err(e) => Err(PortParseFailed(e))
      case Ok(v) => Ok(v + 1)
  }

  /**
   * How `input set` reads its reply: a reply without the AA BB 03 11 prefix
   * is still a success, and the port reported is the one in the reply.
   */
  function SetReply(response: string): (r: Result<SetReport, InputError>)
    ensures |response| < 12 ==> r == Err(InvalidResponseLength(response))
    ensures |response| >= 12 ==> r.Ok?
    ensures r.Ok? ==> (r.value == UnexpectedReply <==> !(SwitchReplyPrefix <= response))
    ensures r.Ok? && SwitchReplyPrefix <= response ==>
              (r.value.SwitchedTo? <==> IsHexDigit(response[8]) && IsHexDigit(response[9]))
    ensures r.Ok? && r.value.SwitchedTo? ==> r.value.port == ByteAt(response, 4) + 1
  {
    if |response| < 12 then Err(InvalidResponseLength(response))
    else if !(SwitchReplyPrefix <= response) then Ok(UnexpectedReply)
    else
      var portHex := response[8..10];
      TwoDigitsFit(portHex);
      match ParseUint8Hex(portHex)
      case Err(_) => Ok(SwitchedUnparsed)
      case Ok(v) => Ok(SwitchedTo(v + 1))
  }

  /** `input get` end to end: send the fixed frame, read byte 4 of the reply. */
  function InputGet(link: Link): (r: Run<nat, InputError>)
    ensures r.contact == (if link.Refused? then Dialed else Wrote([0xAA, 0xBB, 0x03, 0x10, 0x00, 0xEE]))
    ensures r.Hangs? <==> link.Delivers? && |link.bytes| < ReplyLength && link.end == Silent
    ensures r.Succeeded() <==> link.Delivers? && |link.bytes| >= ReplyLength
    ensures r.Succeeded() ==> r.result.value == link.bytes[4] as int + 1
    ensures r.Done? && r.result.Err? ==> r.result.error.SendFailed?
  {
    GetInputFrameBytes();
    var sent := SendCommand(GetInputFrame, link);
    if sent.Blocked? then Hangs(sent.contact)
    else if sent.err.Some? then Done(Err(SendFailed(sent.err.value)), sent.contact)
    else
      SendCommandReplyBytes(GetInputFrame, link, 4);
      Done(ActivePort(sent.response), sent.contact)
  }

  /** `input set <arg>` end to end. */
  function InputSet(arg: string, link: Link): (r: Run<SetReport, InputError>)
    ensures SetInputCommand(arg).Err? ==> r == Done(Err(SetInputCommand(arg).error), NoContact)
    ensures SetInputCommand(arg).Ok? ==>
              r.contact == (if link.Refused? then Dialed
                            else Wrote([0xAA, 0xBB, 0x03, 0x01, SignedValue(arg), 0xEE]))
    ensures r.Hangs? <==>
              SetInputCommand(arg).Ok? && link.Delivers? && |link.bytes| < ReplyLength && link.end == Silent
    ensures r.Succeeded() <==>
              SetInputCommand(arg).Ok? && link.Delivers? && |link.bytes| >= ReplyLength
    ensures r.Succeeded() ==>
              r.result.value == (if link.bytes[..4] == [0xAA, 0xBB, 0x03, 0x11]
                                 then SwitchedTo(link.bytes[4] as int + 1) else UnexpectedReply)
  {
    match SetInputCommand(arg)
    case Err(e) => Done(Err(e), NoContact)
    case Ok(command) =>
      var sent := SendCommand(command, link);
      if sent.Blocked? then Hangs(sent.contact)
      else if sent.err.Some? then Done(Err(SendFailed(sent.err.value)), sent.contact)
      else
        ReplyPrefix(sent.response, link.bytes[..ReplyLength]);
        SendCommandReplyBytes(command, link, 4);
        Done(SetReply(sent.response), sent.contact)
  }

  /** A six-byte reply spelled in hex starts with AA BB 03 11 exactly when its bytes do. */
  lemma ReplyPrefix(response: string, reply: seq<byte>)
    requires |reply| == ReplyLength && Decode(response) == Ok(reply) && IsLowerHex(response)
    ensures SwitchReplyPrefix <= response <==> reply[..4] == [0xAA, 0xBB, 0x03, 0x11]
  {
    EncodeDecode(response);
    Strings.ToLowerFixed(response);
    SwitchReplyPrefixBytes();
    EncodePrefix([0xAA, 0xBB, 0x03, 0x11], reply);
  }

  /**
   * `input set n` followed by the reply rule of `input get` is not the
   * identity: a device that reported the operand byte of the switch frame
   * as its active port would be read back as n + 1.
   */
  lemma SwitchOperandReadBack(n: int)
    requires 1 <= n <= 16
    ensures ActivePort(SwitchFrame(n)) == Ok(n + 1)
  {
    var f := SwitchFrame(n);
    assert Decode(f).value[4] == n;
  }
}
