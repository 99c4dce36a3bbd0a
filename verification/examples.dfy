/** Concrete inputs and what the model does with them. */
module Examples {
  import opened Results
  import opened Strings
  import opened Hex
  import opened Input
  import opened Buzzer
  import opened Timeout
  import opened Raw

  /** Ports 0 and 17 and a word are refused. */
  lemma SetInputRefused()
    ensures SetInputCommand("0") == Err(PortOutOfRange(0))
    ensures SetInputCommand("17") == Err(PortOutOfRange(17))
    ensures SetInputCommand("one") == Err(InvalidPortNumber("one"))
  {
    assert Strconv.DecimalValue("17") == 17;
  }

  /** Port 1 puts 01 on the wire, not 00, and port 16 puts 10, not 0f. */
  lemma SetInputFrames()
    ensures SetInputCommand("1") == Ok("aabb030101ee")
    ensures SetInputCommand("16") == Ok("aabb030110ee")
  {
    assert Strconv.DecimalValue("1") == 1;
    assert Strconv.Atoi("1") == Ok(1);
    assert Strconv.DecimalValue("16") == 16;
    assert Strconv.Atoi("16") == Ok(16);
    assert Encode([1]) == [Digit(0), Digit(1)] + Encode([]) == "01";
    assert SwitchFrame(1) == "aabb030101ee";
    assert SwitchFrame(16) == "aabb030110ee";
    assert Encode([16]) == [Digit(1), Digit(0)] + Encode([]) == "10";
  }

  /** A reply carrying byte 02 at offset 4 names input 3. */
  lemma ActivePortExample()
    ensures ActivePort("aabb03110200ee") == Ok(3)
    ensures ActivePort("aabb0311") == Err(InvalidResponseLength("aabb0311"))
    ensures SetReply("aabb03110200ee") == Ok(SwitchedTo(3))
    ensures SetReply("aabb03100200ee") == Ok(UnexpectedReply)
  {
    assert "aabb03100200ee"[7] != SwitchReplyPrefix[7];
  }

  /** Keywords are matched case-insensitively; numbers other than 10, 30 and 0 are refused. */
  lemma TimeoutExamples()
    ensures TimeoutCommand("SHORT") == Ok(ShortFrame)
    ensures TimeoutCommand("10") == Ok(ShortFrame)
    ensures TimeoutCommand("15") == Err(InvalidTimeout("15"))
  {
    var l := ToLower("SHORT");
    assert l[0] == 's' && l[1] == 'h' && l[2] == 'o' && l[3] == 'r' && l[4] == 't';
    assert l == "short";
    ToLowerFixed("10");
    ToLowerFixed("15");
  }

  /** A raw argument that is not hexadecimal never reaches the network. */
  lemma RawExamples(link: Transport.Link)
    ensures RawRun("zz", link) == Transport.Done(Err(InvalidHexCommand(InvalidByte('z'))), Transport.NoContact)
    ensures Decode("aabb") == Ok([0xAA, 0xBB])
  {
    assert ScanLowerHex("aabb", 0);
    assert ByteAt("aabb", 0) == 0xAA && ByteAt("aabb", 1) == 0xBB;
    DecodeBytes("aabb", [0xAA, 0xBB]);
  }

  /** `buzzer mute` to a device that never answers waits forever in the six-byte read. */
  lemma SilentBuzzerHangs()
    ensures BuzzerRun("mute", Transport.Delivers([], Transport.Silent)).Hangs?
    ensures BuzzerRun("mute", Transport.Delivers([], Transport.Eof)) ==
              Transport.Done(Err(BuzzerError.CommandFailed(Transport.ReadFailed(Transport.EndOfStream))),
                             Transport.Wrote(BuzzerBytes(0x00)))
  {
    ToLowerFixed("mute");
  }
}
