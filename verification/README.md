# tesmartctl frame codec, in Dafny

`tesmartctl` is a command-line client for TeSmart KVM switches. It speaks a
small binary protocol over TCP: each command is a short frame such as
`AA BB 03 01 <port> EE`, written on the command line as a hex string. This
project models the pure part of the client, the **frame codec**:

- `input get` and `input set <n>` (`cmd/input.go`): validating the port argument
  with `strconv.Atoi` and the range 1..16, rendering the switch frame
  `aabb0301%02xee`, reading the active port from hex characters 8..10 of the reply
  with `strconv.ParseUint(…, 16, 8)` plus one, and `input set`'s soft check of the
  `aabb0311` reply prefix;
- `buzzer` and `timeout` (`cmd/buzzer.go`, `cmd/timeout.go`): lower-casing the
  keyword and mapping it to a constant frame, or to an error;
- `SendCommand` (`internal/tesmart/send.go`): Base16 decoding of the command
  (section 8 of RFC 4648, either case accepted, as Go's `encoding/hex` does),
  a six-byte `io.ReadFull` of the reply and its lower-case hex encoding;
- `raw` (`cmd/raw.go`): the same decoding of a caller-supplied frame and the
  rendering of a reply of up to 64 bytes.

The network is an input. A `Transport.Link` value says what the device would do
during one exchange: refuse the connection, fail the write, or deliver some bytes
and then close the stream (EOF), reset it, or fall silent while keeping it
open. A `Transport.Contact` value
records how far an exchange got: nothing attempted, dialled only, or a payload
written. This lets the contracts state "fails before dialling" and "writes
exactly the decoded bytes" about pure functions.

Modules: `Results` (Option/Result), `Strings` (ASCII lower-casing), `Hex`
(`encoding/hex`), `Strconv` (`Atoi` and `ParseUint(s, 16, 8)`), `Transport`
(`SendCommand`), `Input`, `Buzzer`, `Timeout`, `Raw` (one per command file), and
`Examples` (concrete inputs).

The model follows what the code does, including where it departs from the
code's own comments and help text:

- `input set n` puts `n` itself on the wire (`cmd/input.go:97`); `input set 1`
  sends `aabb030101ee`. The comments at `cmd/input.go:60` and `cmd/input.go:134`
  say that TeSmart port numbers are 0-based in the protocol, and the help text at
  `cmd/input.go:75-78` says that `set 3` selects PC3. By that convention the
  operand `n` names PC`n+1`, and the code's own reply rule reads it back as
  `n + 1` (`Input.SwitchOperandReadBack`). The model keeps the operand as the code
  writes it.
- `SendCommand`, as defined in `internal/tesmart/send.go:13`, takes four
  parameters and always reads six bytes (`internal/tesmart/send.go:53-61`). Its
  callers pass a fifth "expect a reply" flag (`cmd/input.go:42`,
  `cmd/buzzer.go:47`, `cmd/timeout.go:52`), which has no counterpart in that
  definition. The model uses the four-parameter behaviour. So `buzzer` and
  `timeout` succeed only when the device answers with at least six bytes
  (`Buzzer.BuzzerRun`, `Timeout.TimeoutRun`).
- `SendCommand` sets no read or write deadline; only the dial has a timeout. A
  device that sends fewer than six bytes and then keeps the connection open
  makes `io.ReadFull` wait forever. The model gives this its own outcome,
  `Transport.Sent.Blocked`, and the commands built on `SendCommand` report it as
  `Transport.Run.Hangs`. A silent device hangs `buzzer mute`
  (`Examples.SilentBuzzerHangs`). `raw` sets deadlines (`cmd/raw.go:47,54`), so it
  always finishes.
- The buzzer frames are seven bytes long (`aabb03020000ee`); the input and
  timeout frames are six.

## Model

| member | source | states |
|---|---|---|
| `Strings.LowerChar` | cmd/buzzer.go:30 | the result is never an upper-case ASCII letter; a letter becomes its lower-case counterpart and any other character is kept |
| `Strings.ToLower` | cmd/timeout.go:31 | the length is kept, every character is lower-cased in place, and no upper-case letter remains |
| `Strings.ToLowerIdempotent` | cmd/buzzer.go:30 | lower-casing an already lower-cased argument changes nothing |
| `Hex.Encode` | internal/tesmart/send.go:66-67 | the reply hex has two lower-case digits per byte, and digits 2k and 2k+1 spell byte k |
| `Hex.Decode` | internal/tesmart/send.go:18-21 | decoding succeeds exactly for even-length all-hex strings and yields one byte per digit pair; otherwise it reports the first non-hex character, left to right, or else the odd length |
| `Hex.DecodeEncode` | internal/tesmart/send.go:18-67 | decoding the encoding of any byte sequence gives back the sequence |
| `Hex.EncodeDecode` | internal/tesmart/send.go:18-67 | encoding the decoding of a valid command gives back the command in lower case, so upper- and lower-case input decode alike |
| `Hex.EncodePrefix` | cmd/input.go:116 | one hex encoding is a prefix of another exactly when its bytes are a prefix of the other's bytes |
| `Strconv.Atoi` | cmd/input.go:86-89 | the argument parses exactly when it is an optional sign and at least one decimal digit with a value inside the 64-bit range, and then yields that value |
| `Strconv.AtoiDecimal` | cmd/input.go:86 | every decimal numeral, unsigned, with `+` or with `-`, parses back to its value when it fits in 64 bits and is refused when it does not |
| `Strconv.ParseUint8Hex` | cmd/input.go:55 | `ParseUint(s, 16, 8)` succeeds exactly for a non-empty hex numeral worth at most 255 and yields its value; a non-digit met before the value overflows is a syntax error |
| `Strconv.ParseHexFromValue` | cmd/input.go:55 | the digit loop, started after a prefix worth `acc`, succeeds exactly when the rest is hex and the whole numeral is worth at most 255, and yields that value |
| `Strconv.TwoDigitsFit` | cmd/input.go:53-58 | on a two-character string the parse fails only on a non-hex character (a syntax error, never a range error) and otherwise yields 16 times the first digit plus the second |
| `Transport.ReadFull` | internal/tesmart/send.go:53-61 | six or more delivered bytes give exactly the first six; with fewer, a closed stream gives EOF when none arrived and an unexpected EOF when some did, a reset gives a connection error, and a silent open connection makes the read wait forever |
| `Transport.SendCommand` | internal/tesmart/send.go:13-73 | a malformed command fails before dialling; every opened connection is handed exactly the decoded command; every error returns the empty string; the call never returns exactly when fewer than six bytes arrive on a connection that stays open; success happens exactly when six bytes arrive and returns 12 lower-case hex digits that decode to them |
| `Transport.BadCommandIgnoresLink` | internal/tesmart/send.go:18-31 | with a malformed command the outcome is the same whatever the device would do, and no connection is attempted |
| `Input.GetInputFrameBytes` | cmd/input.go:38-39 | the `input get` frame decodes to AA BB 03 10 00 EE |
| `Input.SwitchReplyPrefixBytes` | cmd/input.go:114-116 | the expected reply prefix spells AA BB 03 11 |
| `Input.SwitchFrame` | cmd/input.go:96-97 | for a port in 1..16 the frame is 12 lower-case hex digits, starts `aabb0301`, ends `ee`, and decodes to AA BB 03 01 port EE |
| `Input.SetInputCommand` | cmd/input.go:85-97 | the argument yields a frame exactly when it is an integer in 1..16; a non-integer or out-of-64-bit numeral is an invalid port number, any other integer is out of range, and an accepted frame carries the integer as byte 4 |
| `Input.ActivePort` | cmd/input.go:47-61 | a reply under 12 characters is a length error; otherwise the result is defined exactly when characters 8 and 9 are hex digits, and is byte 4 plus one, in 1..256 |
| `Input.SetReply` | cmd/input.go:109-137 | a reply under 12 characters is an error; a longer reply without the `aabb0311` prefix is a success with an unexpected-reply report; with the prefix, the port is reported exactly when characters 8 and 9 are hex, and is byte 4 of the reply plus one |
| `Input.ReplyPrefix` | cmd/input.go:116 | a six-byte reply's hex starts with `aabb0311` exactly when its first four bytes are AA BB 03 11 |
| `Input.InputGet` | cmd/input.go:30-66 | `input get` writes AA BB 03 10 00 EE to every connection it opens; it hangs exactly when the device falls silent before six bytes, and succeeds exactly when six bytes arrive, reporting byte 4 plus one |
| `Input.InputSet` | cmd/input.go:81-140 | a bad argument fails with no contact; a good one writes AA BB 03 01 n EE; the command hangs exactly when the device falls silent before six bytes, succeeds exactly when six bytes arrive, and then reports byte 4 plus one of the reply, not the argument, when the reply starts AA BB 03 11 |
| `Input.SwitchOperandReadBack` | cmd/input.go:97 | the operand `input set n` writes, read by the reply rule of line 61, names port n + 1 |
| `Buzzer.MuteFrameBytes` | cmd/buzzer.go:37-38 | the mute frame is 14 lower-case hex digits decoding to AA BB 03 02 00 00 EE |
| `Buzzer.UnmuteFrameBytes` | cmd/buzzer.go:40-41 | the unmute frame is 14 lower-case hex digits decoding to the same bytes with 01 as byte 4 |
| `Buzzer.BuzzerCommand` | cmd/buzzer.go:29-45 | the argument yields a frame exactly when its lower-cased form is `mute`, `0`, `unmute` or `1`; the frame decodes to seven bytes whose byte 4 is 01 for the unmute keywords and 00 for the mute ones; any other argument is an error carrying the lower-cased text |
| `Buzzer.BuzzerIgnoresCase` | cmd/buzzer.go:30 | two arguments equal up to ASCII case get the same outcome |
| `Buzzer.BuzzerRun` | cmd/buzzer.go:25-53 | an unknown keyword fails with no contact; a known one writes its decoded frame, hangs exactly when the device falls silent before six reply bytes, and succeeds exactly when six arrive |
| `Timeout.ShortFrameBytes` | cmd/timeout.go:38-39 | the `short`/`10` frame decodes to AA BB 03 03 0A EE, operand 10 seconds |
| `Timeout.LongFrameBytes` | cmd/timeout.go:41-42 | the `long`/`30` frame decodes to AA BB 03 03 1E EE, operand 30 seconds |
| `Timeout.NeverFrameBytes` | cmd/timeout.go:44-45 | the `never`/`off`/`0` frame decodes to AA BB 03 03 00 EE, operand 0 |
| `Timeout.TimeoutCommand` | cmd/timeout.go:31-49 | the argument yields a frame exactly when its lower-cased form names a setting; the frame is 12 lower-case hex digits decoding to the six bytes whose operand is that setting's seconds; any other argument is an error carrying the lower-cased text |
| `Timeout.FramesDistinct` | cmd/timeout.go:39-45 | different settings put different frames on the wire |
| `Timeout.TimeoutIgnoresCase` | cmd/timeout.go:31 | two arguments equal up to ASCII case get the same outcome |
| `Timeout.TimeoutRun` | cmd/timeout.go:28-59 | an unknown keyword fails with no contact; a known one writes its decoded frame, hangs exactly when the device falls silent before six reply bytes, succeeds exactly when six arrive, and reports the setting the keyword selects |
| `Raw.FirstRead` | cmd/raw.go:56-61 | one read takes at most 64 of the delivered bytes, in order; with no bytes it fails on a reset or an expired read deadline, and EOF is not a failure |
| `Raw.RawRun` | cmd/raw.go:23-77 | the command always finishes; a malformed argument fails before dialling; every opened connection is handed exactly the decoded argument; "no response" happens exactly when the stream closes with no bytes; otherwise the response is 2n lower-case hex digits that decode to the first n = min(delivered, 64) bytes |
| `Examples.SetInputRefused` | cmd/input.go:86-94 | `0` and `17` are out of range and `one` is not a port number |
| `Examples.SetInputFrames` | cmd/input.go:97 | `input set 1` renders `aabb030101ee` and `input set 16` renders `aabb030110ee` |
| `Examples.ActivePortExample` | cmd/input.go:48-61 | reply `aabb03110200ee` names input 3 for both commands; a short reply is an error; a reply with another prefix is an unexpected reply |
| `Examples.TimeoutExamples` | cmd/timeout.go:31-49 | `SHORT` and `10` give the 10-second frame and `15` is refused |
| `Examples.RawExamples` | cmd/raw.go:29-33 | `zz` is refused with invalid byte `z` and no contact; `aabb` decodes to AA BB |
| `Examples.SilentBuzzerHangs` | cmd/buzzer.go:47 | `buzzer mute` hangs on a device that never answers and fails with EOF on one that closes at once |

## Left out

- TCP dialling, writing, reading, deadlines and `conn.Close` in `send.go`, `raw.go` and `ping.go`: network I/O, replaced by the `Link` input.
- `cmd/ping.go`: a connectivity check followed by printing.
- `cmd/config.go`, `cmd/root.go`, `main.go`: configuration files, environment variables, logging set-up and the program entry point; they hold no protocol logic.
- Cobra command wiring, help text, `Printf` output and debug tracing; the commands' results are returned as values instead of printed.
- The fifth "expect a reply" argument the callers pass to `SendCommand`: `SendCommand` as defined in internal/tesmart/send.go has no such parameter.
- `Strings.ToLower`: lower-cases ASCII letters only, not full Unicode; none of the accepted keywords contains `i` or `k`, the only ASCII letters that Go's lower-casing produces from non-ASCII characters, so the keywords accepted are the same.
- `Strconv.Atoi`: reports Go's syntax and range failures as one error; `input set` prints the same message for both.
- `Hex.Decode`: names an invalid non-ASCII character as the character itself, where Go names the first byte of its UTF-8 encoding.
- `Input.ActivePort`: indexes characters where Go slices bytes; the two agree on the ASCII replies `SendCommand` returns.
- `Input.SetReply`: counts characters in the length check and the `[8:10]` slice where Go counts bytes. On a reply with non-ASCII characters the two differ, e.g. 11 two-byte characters fail the length check here but pass it in Go. `SendCommand` only returns ASCII replies.
- `Transport.SendCommand`: the wait forever on a silent device is an outcome value (`Blocked`), not a non-terminating computation; how long the real program waits, and anything that interrupts it, is not modelled.
- `Raw.FirstRead`: assumes the first `conn.Read` returns every delivered byte that fits in the buffer; a device whose reply is split across TCP segments may make the real read return fewer.
