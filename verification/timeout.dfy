/** `tesmartctl timeout <short|10|long|30|never|off|0>`: the LED timeout. */
module Timeout {
  import opened Results
  import opened Strings
  import opened Hex
  import opened Transport

  const ShortFrame: string := "aabb03030aee"
  const LongFrame: string := "aabb03031eee"
  const NeverFrame: string := "aabb030300ee"

  datatype TimeoutError =
    | InvalidTimeout(arg: string)    // the lower-cased argument is no keyword
    | CommandFailed(cause: SendError)

  /** The three settings the command offers. */
  datatype LedTimeout = Short | Long | Never {
    /** Seconds until the LEDs go dark; 0 keeps them on. */
    function Seconds(): byte {
      match this
      case Short => 10
      case Long => 30
      case Never => 0
    }
  }

  /** The six bytes of a timeout frame: the operand is the timeout in seconds. */
  function TimeoutBytes(t: LedTimeout): seq<byte> {
    [0xAA, 0xBB, 0x03, 0x03, t.Seconds(), 0xEE]
  }

  lemma ShortFrameBytes()
    ensures Decode(ShortFrame) == Ok(TimeoutBytes(Short))
    ensures |ShortFrame| == 12 && IsLowerHex(ShortFrame)
  {
    var s := ShortFrame;
    assert ScanLowerHex(s, 0);
    assert ByteAt(s, 0) == 0xAA && ByteAt(s, 1) == 0xBB && ByteAt(s, 2) == 0x03;
    assert ByteAt(s, 3) == 0x03 && ByteAt(s, 4) == 10 && ByteAt(s, 5) == 0xEE;
    DecodeBytes(s, TimeoutBytes(Short));
  }

  lemma LongFrameBytes()
    ensures Decode(LongFrame) == Ok(TimeoutBytes(Long))
    ensures |LongFrame| == 12 && IsLowerHex(LongFrame)
  {
    var s := LongFrame;
    assert ScanLowerHex(s, 0);
    assert ByteAt(s, 0) == 0xAA && ByteAt(s, 1) == 0xBB && ByteAt(s, 2) == 0x03;
    assert ByteAt(s, 3) == 0x03 && ByteAt(s, 4) == 30 && ByteAt(s, 5) == 0xEE;
    DecodeBytes(s, TimeoutBytes(Long));
  }

  lemma NeverFrameBytes()
    ensures Decode(NeverFrame) == Ok(TimeoutBytes(Never))
    ensures |NeverFrame| == 12 && IsLowerHex(NeverFrame)
  {
    var s := NeverFrame;
    assert ScanLowerHex(s, 0);
    assert ByteAt(s, 0) == 0xAA && ByteAt(s, 1) == 0xBB && ByteAt(s, 2) == 0x03;
    assert ByteAt(s, 3) == 0x03 && ByteAt(s, 4) == 0 && ByteAt(s, 5) == 0xEE;
    DecodeBytes(s, TimeoutBytes(Never));
  }

  /** The keywords that select each setting, after lower-casing. */
  predicate Selects(a: string, t: LedTimeout) {
    match t
    case Short => a == "short" || a == "10"
    case Long => a == "long" || a == "30"
    case Never => a == "never" || a == "off" || a == "0"
  }

  /** The setting a lower-cased keyword selects, if any. */
  function Setting(a: string): (r: Option<LedTimeout>)
    ensures forall t: LedTimeout :: r == Some(t) <==> Selects(a, t)
  {
    if Selects(a, Short) then Some(Short)
    else if Selects(a, Long) then Some(Long)
    else if Selects(a, Never) then Some(Never)
    else None
  }

  /** The `RunE` switch of the timeout command, after lower-casing the argument. */
  function TimeoutCommand(arg: string): (r: Result<string, TimeoutError>)
    ensures r.Ok? <==> Setting(ToLower(arg)).Some?
    ensures r.Err? ==> r.error == InvalidTimeout(ToLower(arg))
    ensures r.Ok? ==> |r.value| == 12 && IsLowerHex(r.value)
    ensures r.Ok? ==> Decode(r.value) == Ok(TimeoutBytes(Setting(ToLower(arg)).value))
  {
    ShortFrameBytes();
    LongFrameBytes();
    NeverFrameBytes();
    var a := ToLower(arg);
    if a == "short" || a == "10" then Ok(ShortFrame)
    else if a == "long" || a == "30" then Ok(LongFrame)
    else if a == "never" || a == "off" || a == "0" then Ok(NeverFrame)
    else Err(InvalidTimeout(a))
  }

  /** The three settings put three different frames on the wire. */
  lemma FramesDistinct(t: LedTimeout, u: LedTimeout)
    requires t != u
    ensures TimeoutBytes(t) != TimeoutBytes(u)
  {
    assert TimeoutBytes(t)[4] != TimeoutBytes(u)[4];
  }

  /** Matching ignores the case of ASCII letters. */
  lemma TimeoutIgnoresCase(a: string, b: string)
    requires ToLower(a) == ToLower(b)
    ensures TimeoutCommand(a) == TimeoutCommand(b)
  {
  }

  /**
   * The timeout command end to end. Like the buzzer command it goes through
   * the four-parameter `SendCommand`, so it needs a six-byte reply and hangs
   * when the device falls silent before.
   */
  function TimeoutRun(arg: string, link: Link): (r: Run<LedTimeout, TimeoutError>)
    ensures TimeoutCommand(arg).Err? ==> r == Done(Err(InvalidTimeout(ToLower(arg))), NoContact)
    ensures TimeoutCommand(arg).Ok? && !link.Refused? ==>
              r.contact == Wrote(Decode(TimeoutCommand(arg).value).value)
    ensures r.Hangs? <==>
              TimeoutCommand(arg).Ok? && link.Delivers? && |link.bytes| < ReplyLength && link.end == Silent
    ensures r.Succeeded() <==> TimeoutCommand(arg).Ok? && link.Delivers? && |link.bytes| >= ReplyLength
    ensures r.Succeeded() ==> Setting(ToLower(arg)) == Some(r.result.value)
  {
    match TimeoutCommand(arg)
    case Err(e) => Done(Err(e), NoContact)
    case Ok(command) =>
      var sent := SendCommand(command, link);
      var t := Setting(ToLower(arg)).value;
      if sent.Blocked? then Hangs(sent.contact)
      else if sent.err.Some? then Done(Err(CommandFailed(sent.err.value)), sent.contact)
      else Done(Ok(t), sent.contact)
  }
}
