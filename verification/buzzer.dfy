/** `tesmartctl buzzer <mute|unmute|0|1>`. */
module Buzzer {
  import opened Results
  import opened Strings
  import opened Hex
  import opened Transport

  const MuteFrame: string := "aabb03020000ee"
  const UnmuteFrame: string := "aabb03020100ee"

  datatype BuzzerError =
    | InvalidArgument(arg: string)   // the lower-cased argument is no keyword
    | CommandFailed(cause: SendError)

  /** The seven bytes of a buzzer frame; the operand is 00 to mute and 01 to unmute. */
  function BuzzerBytes(operand: byte): seq<byte> {
    [0xAA, 0xBB, 0x03, 0x02, operand, 0x00, 0xEE]
  }

  /** The mute frame decodes to seven bytes with operand 00. */
  lemma MuteFrameBytes()
    ensures Decode(MuteFrame) == Ok(BuzzerBytes(0x00))
    ensures |MuteFrame| == 14 && IsLowerHex(MuteFrame)
  {
    var m := MuteFrame;
    assert ScanLowerHex(m, 0);
    assert ByteAt(m, 0) == 0xAA && ByteAt(m, 1) == 0xBB && ByteAt(m, 2) == 0x03 && ByteAt(m, 3) == 0x02;
    assert ByteAt(m, 4) == 0x00 && ByteAt(m, 5) == 0x00 && ByteAt(m, 6) == 0xEE;
    DecodeBytes(m, BuzzerBytes(0x00));
  }

  /** The unmute frame decodes to the same seven bytes with operand 01. */
  lemma UnmuteFrameBytes()
    ensures Decode(UnmuteFrame) == Ok(BuzzerBytes(0x01))
    ensures |UnmuteFrame| == 14 && IsLowerHex(UnmuteFrame)
  {
    var u := UnmuteFrame;
    assert ScanLowerHex(u, 0);
    assert ByteAt(u, 0) == 0xAA && ByteAt(u, 1) == 0xBB && ByteAt(u, 2) == 0x03 && ByteAt(u, 3) == 0x02;
    assert ByteAt(u, 4) == 0x01 && ByteAt(u, 5) == 0x00 && ByteAt(u, 6) == 0xEE;
    DecodeBytes(u, BuzzerBytes(0x01));
  }

  /** The `RunE` switch of the buzzer command, after lower-casing the argument. */
  function BuzzerCommand(arg: string): (r: Result<string, BuzzerError>)
    ensures r.Ok? <==> ToLower(arg) in {"mute", "0", "unmute", "1"}
    ensures r.Err? ==> r.error == InvalidArgument(ToLower(arg))
    ensures r.Ok? ==> |r.value| == 14 && IsLowerHex(r.value)
    ensures r.Ok? ==>
              Decode(r.value) == Ok(BuzzerBytes(if ToLower(arg) in {"unmute", "1"} then 0x01 else 0x00))
  {
    MuteFrameBytes();
    UnmuteFrameBytes();
    var a := ToLower(arg);
    if a == "mute" || a == "0" then Ok(MuteFrame)
    else if a == "unmute" || a == "1" then Ok(UnmuteFrame)
    else Err(InvalidArgument(a))
  }

  /** Matching ignores the case of ASCII letters. */
  lemma BuzzerIgnoresCase(a: string, b: string)
    requires ToLower(a) == ToLower(b)
    ensures BuzzerCommand(a) == BuzzerCommand(b)
  {
  }

  /**
   * The buzzer command end to end. The four-parameter `SendCommand` always
   * waits for a six-byte reply, so the command succeeds only when the device
   * answers with at least six bytes, and hangs when it falls silent before.
   */
  function BuzzerRun(arg: string, link: Link): (r: Run<string, BuzzerError>)
    ensures BuzzerCommand(arg).Err? ==> r == Done(Err(InvalidArgument(ToLower(arg))), NoContact)
    ensures BuzzerCommand(arg).Ok? && !link.Refused? ==>
              r.contact == Wrote(Decode(BuzzerCommand(arg).value).value)
    ensures r.Hangs? <==>
              BuzzerCommand(arg).Ok? && link.Delivers? && |link.bytes| < ReplyLength && link.end == Silent
    ensures r.Succeeded() <==> BuzzerCommand(arg).Ok? && link.Delivers? && |link.bytes| >= ReplyLength
    ensures r.Succeeded() ==>
              r.result.value == (if ToLower(arg) in {"unmute", "1"} then "unmuted" else "muted")
  {
    match BuzzerCommand(arg)
    case Err(e) => Done(Err(e), NoContact)
    case Ok(command) =>
      var sent := SendCommand(command, link);
      if sent.Blocked? then Hangs(sent.contact)
      else if sent.err.Some? then Done(Err(CommandFailed(sent.err.value)), sent.contact)
      else Done(Ok(if command == MuteFrame then "muted" else "unmuted"), sent.contact)
  }
}
