# Wi-Fi provisioning portal and rover link, modelled in Dafny

The system has two parts.

The first is a Raspberry Pi Pico W firmware (`wifi-portal.c`). It opens an
access point and serves a setup page over HTTP. It takes the home network's
SSID and password from a `POST /save` form, then switches to client mode and
tries to join that network up to three times. Two external LEDs blink to show
progress. Blinking is off after start-up. The blue LED starts blinking when the
first HTTP payload arrives, and the green one once the board has joined the
network. Button B or a `POST /led_off` stops the blinking.

The second is a desktop rover simulator (`rover_simu/rover_simulation.py`)
that talks to the board over UDP. Its message-level logic is modelled:

- the bounded debug log;
- the `HELLO` handshake check after NUL stripping;
- the comma-separated `key=value` telemetry parser;
- the status replies and their `TX: ` log lines;
- the length-based classification of binary `RVRC` packets, and the rover
  update a rover-only or full packet applies.

Modules, one per file:

| module | file | what it holds |
|---|---|---|
| `Util` | util.dfy | bytes, `Option`, search/split/join, NUL removal, decimal numerals |
| `FormCodec` | form_codec.dfy | the credential record and `parse_form_data` |
| `Leds` | leds.dfy | `update_leds` (32-bit wrap-around clock) and the debounced button handler |
| `HttpResponder` | http_responder.dfy | `tcp_server_recv`: request cut, routing, responses |
| `Provisioning` | provisioning.dfy | `main`: start-up, the waiting loop, the retry loop |
| `RoverLog` | rover_log.dfy | `add_to_message_log` |
| `RoverTelemetry` | rover_telemetry.dfy | the `key=value` text parser |
| `RoverPackets` | rover_packets.dfy | structure sizes and the `RVRC` length classifier |
| `RoverReceive` | rover_receive.dfy | one datagram through `receive_data` |

Hardware, network and clock calls become parameters:

- the radio's join result is a function of the SSID, the password and the call number;
- the payloads each poll delivers and the clock readings are given as data;
- Python's UTF-8 decoding, `float()`, `int()` and `struct.unpack` are functions passed in;
- so are the status text `send_status_text` formats, the protocol switch
  `USAR_PROTOCOLO_SIMPLES` (a key press flips it), whether each status send
  goes out, and whether the `ACK` to a `HELLO` goes out.

Two behaviours of the code are worth stating up front:

- A form token or telemetry pair without `=` is skipped, not treated as an error.
- The waiting loop checks `received` only between `cyw43_arch_poll` calls.
  Two `/save` requests handled in the same poll are both parsed, and the
  later one's credentials are kept (`Provisioning.LaterSaveInSamePollWins`).

## Model

| member | source | states |
|---|---|---|
| FormCodec.Store | wifi-portal.c:281-283 | the stored value is the longest prefix of the decoded value that fits the buffer with its terminator; a value that fits is stored whole |
| FormCodec.DecodePlus | wifi-portal.c:272-277 | every `+` becomes a space and every other byte is kept, position by position |
| FormCodec.Tokens | wifi-portal.c:262-265 | the tokens `strtok` yields are non-empty, contain no `&`, and consist of bytes of the body |
| FormCodec.TokensArePieces | wifi-portal.c:262-286 | a byte string is a token iff it is a non-empty piece of the body between `&` separators, and those pieces joined by `&` give the body back |
| FormCodec.ParseForm | wifi-portal.c:258-291 | after parsing, `received` is set and both fields still fit their 32- and 64-byte buffers as C strings |
| FormCodec.ApplyTokensIsLastValue | wifi-portal.c:265-287 | each field ends up as the (truncated) value of the LAST token naming it, or keeps its old value when no token names it; `received` is untouched by the loop |
| FormCodec.ParseFormFields | wifi-portal.c:258-291 | the same last-assignment-wins characterisation for the whole body, with `received` set |
| FormCodec.ParseFormIgnoresOthers | wifi-portal.c:266-285 | a body naming neither `ssid` nor `password` changes only the `received` flag |
| FormCodec.DecodeEncode | wifi-portal.c:272-277 | decoding a space-encoded value without `+` gives the value back |
| FormCodec.DecodeExamples | wifi-portal.c:272-277 | `a+b` decodes to `a b`; `%20` is not percent-decoded |
| FormCodec.FormRoundTrip | wifi-portal.c:258-291 | a form body built from any SSID/password that fit their buffers and contain no `&`, `+` or NUL parses back to exactly that record |
| FormCodec.AsciiFormText | wifi-portal.c:258-291 | the text `ssid=<s>&password=<p>` typed by a browser for values without spaces is exactly the encoded form the parser reads |
| FormCodec.TextFormRoundTrip | wifi-portal.c:258-291 | credentials typed as ASCII text without space, `&`, `+` or NUL that fit their buffers are captured verbatim from that text |
| FormCodec.HomeNetExample | wifi-portal.c:258-291 | `ssid=HomeNet&password=secret123` yields SSID `HomeNet` and password `secret123` |
| FormCodec.UnknownFieldIgnored | wifi-portal.c:266-285 | a body that is a single `name=value` pair with a name other than `ssid`/`password` changes nothing but `received` |
| FormCodec.UnrecognisedBodyExample | wifi-portal.c:258-291 | `foo=bar` leaves both fields empty but marks the record received |
| Leds.Elapsed | wifi-portal.c:241 | the unsigned difference lies in [0, 2^32) and added to the last toggle time gives the current time modulo 2^32 |
| Leds.Interval | wifi-portal.c:238 | 500 ms exactly in access-point mode, 200 ms in every other mode |
| Leds.PinWrite | wifi-portal.c:245-251 | mode 1 drives the blue pin, mode 2 the green pin, any other mode no pin |
| Leds.UpdateLeds | wifi-portal.c:231-255 | disabled blinking changes nothing; otherwise the LED toggles iff the wrapped elapsed time reaches the mode's interval, a toggle records the current time and drives the mode's pin, and no toggle changes nothing |
| Leds.UpdateLedsSameInstant | wifi-portal.c:241-253 | a second call at the same instant never toggles again |
| Leds.UpdateLedsAcrossWrap | wifi-portal.c:237-241 | a toggle at 0xFFFFFF00 is followed by the next one when the clock wraps to 244, not earlier |
| Leds.ButtonPress | wifi-portal.c:200-226 | presses on other pins or within 200 ms of the last counted press change nothing; a counted press records its time, disables blinking and turns off the current mode's LED if blinking was on |
| Leds.ButtonPressesMonotone | wifi-portal.c:204-213 | with a clock that never runs backwards, presses never re-enable blinking and the counted-press time never decreases |
| HttpResponder.CutRequest | wifi-portal.c:306-308 | the request is the longest NUL-free prefix of the payload that fits 1023 bytes |
| HttpResponder.Classify | wifi-portal.c:327-385 | `/save` iff the request starts with `POST /save`, `/led_off` iff it starts with `POST /led_off`, the setup page otherwise |
| HttpResponder.PrefixesExclusive | wifi-portal.c:327-353 | no request starts with both prefixes |
| HttpResponder.ResponseRoundTrip | wifi-portal.c:336-345 | a client reading the declared `Content-Length` recovers exactly the page |
| HttpResponder.SourceResponsesFit | wifi-portal.c:324 | with the firmware's page sizes, every response fits the 4096-byte response buffer |
| HttpResponder.HandleRecv | wifi-portal.c:294-398 | peer close changes nothing; otherwise the client is marked connected, the reply is undefined iff a `/save` request has no blank line, every other reply is exactly the HTTP response for the request's route (never a peer close), and the record only changes to a received one |
| HttpResponder.HandleRecvParses | wifi-portal.c:336-345 | a client reading a reply the handler sent recovers exactly the page of the request's route |
| HttpResponder.HandleRecvConfig | wifi-portal.c:327-333 | the record changes only for a `/save` request with a blank line, and then it is the form parse of the bytes after the first blank line |
| HttpResponder.HandleRecvLeds | wifi-portal.c:312-357 | `/led_off` leaves blinking disabled, and at first contact still switches to access-point mode; any other request switches to access-point mode with blinking on at first contact and leaves the LEDs alone afterwards; the LED level and last toggle time are never touched |
| HttpResponder.DefaultRouting | wifi-portal.c:373-385 | any other request gets the setup page and leaves the record alone |
| HttpResponder.OnlyPrefixMatters | wifi-portal.c:306-308 | bytes past the 1023rd never influence the handler |
| HttpResponder.SaveRequestCaptures | wifi-portal.c:327-350 | a well-formed `/save` request carrying an encoded form stores exactly its credentials and gets the success page |
| Provisioning.Deliver | wifi-portal.c:504 | handling a poll's payloads keeps the record within its buffers and never clears `received` |
| Provisioning.Await | wifi-portal.c:503-507 | the waiting loop ends with the record received or all given rounds used |
| Provisioning.AwaitStopsAtFirstReceived | wifi-portal.c:503-507 | the loop's state is the reference run of exactly the rounds it used, and no earlier prefix of those rounds had received the record |
| Provisioning.LaterSaveInSamePollWins | wifi-portal.c:503-505 | two `/save` requests in the same poll are both parsed and the later one's credentials are kept |
| Provisioning.ConnectWithRetry | wifi-portal.c:543-569 | at most three joins; connected iff one of the first three succeeds; every earlier call failed; failure means exactly three calls |
| Provisioning.Provision | wifi-portal.c:460-578 | a failed radio init or listener start ends before any join; joins happen only after credentials arrived; the record is received iff the controller connected or halted; a halt follows three failed joins; a connection arms the green blink at the connection time; the record used is the one the waiting loop produced |
| Provisioning.ProvisionAgainstDeadRadio | wifi-portal.c:543-569 | against a radio that never joins, the controller never connects and makes exactly three joins once credentials arrive |
| RoverLog.Sanitize | rover_simu/rover_simulation.py:396-400 | the stored message has no NUL, is at most 100 characters, equals the NUL-free message when that fits, and is its first 97 characters plus `...` otherwise |
| RoverLog.Push | rover_simu/rover_simulation.py:402-404 | the new entry is last; on a log of at most five it keeps the five newest entries |
| RoverLog.AddToLog | rover_simu/rover_simulation.py:393-404 | the sanitized message is appended last and only the oldest entry is dropped, keeping the five newest |
| RoverLog.PushAllKeepsNewest | rover_simu/rover_simulation.py:402-404 | any number of pushes onto a log of at most five leaves the five newest of everything pushed |
| RoverLog.LogAllKeepsNewest | rover_simu/rover_simulation.py:393-404 | after any message sequence the log is the five newest of the old entries and the sanitized messages, in arrival order |
| RoverLog.LogAllAppend | rover_simu/rover_simulation.py:393-404 | logging two message sequences one after the other is logging their concatenation |
| RoverLog.LogAllShort | rover_simu/rover_simulation.py:402-404 | while old entries and new messages number at most five, nothing is dropped: the log is the old entries followed by the sanitized messages |
| RoverLog.LogFromEmpty | rover_simu/rover_simulation.py:393-404 | from an empty log, it holds min(n, 5) entries: the newest sanitized messages |
| RoverTelemetry.Strip | rover_simu/rover_simulation.py:281-282 | the result is a slice of the input with only Python whitespace cut from either end, and starts and ends with non-whitespace |
| RoverTelemetry.Lower | rover_simu/rover_simulation.py:288 | ASCII capitals are lowered and every other character kept |
| RoverTelemetry.KeyValue | rover_simu/rover_simulation.py:279-282 | a pair without `=` is skipped; otherwise it is split at the FIRST `=` and both parts are stripped |
| RoverTelemetry.ItemOfKey | rover_simu/rover_simulation.py:284-291 | key by key: numeric keys convert or fail, `mode` converts to an int or fails, `lights`/`camera` are case-insensitively truthy, `capture` only for exact lower-case truthy values, other keys ignored |
| RoverTelemetry.FailsOnlyOnConversion | rover_simu/rover_simulation.py:283-291 | a pair raises iff its key is numeric and `float()` fails or its key is `mode` and `int()` fails |
| RoverTelemetry.ScanItems | rover_simu/rover_simulation.py:277-291 | the loop stops at the first failed conversion; the capture flag is set iff a capture command occurs before that point |
| RoverTelemetry.ParseTelemetry | rover_simu/rover_simulation.py:273-308 | text without both `,` and `=` changes nothing; a failed conversion leaves every rover field unchanged but keeps a capture requested earlier in the message |
| RoverTelemetry.ScanCollectsLast | rover_simu/rover_simulation.py:277-291 | without failures, each collected field is the value of the last pair of its kind |
| RoverTelemetry.ParseTelemetryLastPairWins | rover_simu/rover_simulation.py:273-304 | without failures, speed is the last speed value /100 x 5.0, steering the last /100, and mode, lights and camera the last given; unnamed fields are kept |
| RoverTelemetry.TruthyCaseExamples | rover_simu/rover_simulation.py:287-291 | `lights=TRUE` and `camera=On` switch on; `capture=TRUE` is not a capture but `capture=yes` is |
| RoverTelemetry.CaptureSurvivesLaterFailure | rover_simu/rover_simulation.py:289-308 | a capture before a failing conversion is kept while later fields are dropped |
| RoverPackets.CalcSize | rover_simu/rover_simulation.py:31-35 | native `struct.calcsize`: each item aligned to its own size, no trailing padding |
| RoverPackets.CalcSizeBounds | rover_simu/rover_simulation.py:31-35 | any layout of `f`, `B`, `?` and `x` items takes at least one byte and at most four bytes per item |
| RoverPackets.PacketSizes | rover_simu/rover_simulation.py:31-35 | the joystick layout takes 12 bytes and the rover layout 20 |
| RoverPackets.ClassifyPacket | rover_simu/rover_simulation.py:320-374 | fewer than 4 bytes: no binary processing; another header: unknown; for `RVRC`: rover-only for lengths in [24, 36), full from 36, too small below 24 |
| RoverPackets.RoverBytes | rover_simu/rover_simulation.py:332-334 | a rover-only packet hands `unpack` exactly 20 bytes |
| RoverPackets.FullBytes | rover_simu/rover_simulation.py:349-355 | a full packet hands `unpack` exactly 12 joystick bytes and then 20 rover bytes, contiguous after the header |
| RoverPackets.KindDependsOnLengthOnly | rover_simu/rover_simulation.py:320-372 | two `RVRC` packets of the same length have the same kind, and the three kinds cover all lengths |
| RoverReceive.Message | rover_simu/rover_simulation.py:219-226 | the decoded text contains no NUL |
| RoverReceive.TxEntry | rover_simu/rover_simulation.py:463 | the entry is `TX: `, a prefix of the status text, and `...`; the prefix is the whole text when it is shorter than 30 characters and exactly 30 characters otherwise |
| RoverReceive.TxLines | rover_simu/rover_simulation.py:311-314 | a status send logs one line iff the text protocol is on and the send goes out, and that line is the `TX: ` entry of the rover's current status |
| RoverReceive.SendStatus | rover_simu/rover_simulation.py:440-465 | a status send leaves the rover and the link flag alone and pushes only its own log lines |
| RoverReceive.BinaryStep | rover_simu/rover_simulation.py:331-372 | a rover-only or full packet applies its structure to the rover and is answered by a second status send logged after the update; any other kind changes nothing |
| RoverReceive.Datagram | rover_simu/rover_simulation.py:253-374 | a non-handshake datagram marks the link connected, ends with the rover the text update and then the structure make, and logs its `RX: ` line, the first reply's line and the second reply's line, in that order |
| RoverReceive.ReceiveWith | rover_simu/rover_simulation.py:218-379 | handshake iff the cleaned text is exactly `HELLO`; a handshake touches neither rover fields nor the binary branch, and logs its note and marks the link connected iff its `ACK` goes out; any other datagram marks the link connected, is classified, updates the rover by its text and then its structure, and logs the lines of `Datagram`; the log stays within five |
| RoverReceive.HandshakeNeedsAck | rover_simu/rover_simulation.py:232-251 | a `HELLO` whose `ACK` raises leaves the state exactly as it was; otherwise only the handshake note and the link flag change |
| RoverReceive.Receive | rover_simu/rover_simulation.py:218-374 | as written: the binary branch classifies the NUL-stripped bytes, and runs iff the datagram is not a handshake |
| RoverReceive.ReceiveRaw | rover_simu/rover_simulation.py:318-374 | corrected: the binary branch classifies the datagram as received; everything else is as in `Receive` |
| RoverReceive.PaddedHelloIsHandshake | rover_simu/rover_simulation.py:219-232 | `HELLO` followed by NUL padding is still a handshake and leaves the rover alone |
| RoverReceive.PlainTextLogged | rover_simu/rover_simulation.py:259-314 | a non-telemetry text datagram without a rover structure leaves the rover alone and, on a log with room, appends its `RX: ` line and then the first reply's lines |
| RoverReceive.TextReplyOnEmptyLog | rover_simu/rover_simulation.py:265-314 | onto an empty log, a short plain text answered in the text protocol leaves exactly its `RX: ` line and the reply's `TX: ` line |
| RoverReceive.TextReplyExample | rover_simu/rover_simulation.py:265-314 | `abc` onto an empty log gives `RX: abc` followed by the `TX: ` line of the status |
| RoverReceive.BinaryProtocolLogsReceiptOnly | rover_simu/rover_simulation.py:270-314 | in the binary protocol a datagram adds only its `RX: ` line, whatever its bytes |
| RoverReceive.RoverOnlyOverridesText | rover_simu/rover_simulation.py:331-338 | a rover-only packet sets speed, steering, mode, lights and camera from its structure, whatever the text set; only the capture request survives from the text |
| RoverReceive.FullPacketDrivesOnlyInManual | rover_simu/rover_simulation.py:349-362 | a full packet sets speed and steering iff the rover is in manual mode after the text update, and mode, lights and camera always |
| RoverReceive.StrippedRoverPacketTooSmall | rover_simu/rover_simulation.py:219-220 | as written, a 24-byte `RVRC` packet whose structure holds a zero byte is classified too small and its structure never reaches the rover |
| RoverReceive.ZeroRoverPacketTooSmall | rover_simu/rover_simulation.py:320-372 | the all-zero rover structure is too small as written and rover-only when classified raw, where its mode reaches the rover |
| RoverReceive.ReceiveRawKeepsPayloads | rover_simu/rover_simulation.py:326-351 | classified raw, every rover-sized payload after `RVRC` is rover-only with its mode applied, and every full-sized one is full, whatever its bytes |
| Util.IndexOf | wifi-portal.c:266 | the first position of the byte, or the length when it is absent |
| Util.Find | wifi-portal.c:331 | `strstr`: the first occurrence of the pattern, and none before it |
| Util.SplitOnce | rover_simu/rover_simulation.py:280 | `split("=", 1)`: splits at the first delimiter; no result iff the delimiter is absent |
| Util.Split | rover_simu/rover_simulation.py:277 | every piece is delimiter-free and made of the input's elements |
| Util.JoinSplit | rover_simu/rover_simulation.py:277 | joining the pieces with the delimiter gives back the input |
| Util.SplitJoin | rover_simu/rover_simulation.py:277 | splitting delimiter-free pieces joined by the delimiter gives back the pieces |
| Util.NonEmptyElements | wifi-portal.c:263-286 | `strtok` keeps exactly the non-empty pieces |
| Util.NonEmptyAppend | wifi-portal.c:263-286 | dropping empty pieces distributes over concatenation |
| Util.RemoveAll | rover_simu/rover_simulation.py:220 | `replace(b'\x00', b'')`: the result has no NUL and equals the input when it had none |
| Util.RemoveAllCount | rover_simu/rover_simulation.py:220 | exactly the removed element's occurrences are dropped; the counts of all others are kept |
| Util.RemoveAllAppend | rover_simu/rover_simulation.py:220 | removal distributes over concatenation |
| Util.Decimal | wifi-portal.c:336-345 | `%d`: at least one digit, all digits, no leading zero |
| Util.DecimalValue | wifi-portal.c:336-345 | the digits printed for `n` read back as `n` |

## Left out

- lwIP and cyw43 calls (`tcp_*`, `pbuf_*`, `cyw43_arch_*`, `netif_set_addr`), `sleep_ms`, `printf` and the UDP socket. Payloads, join results and clock readings are parameters instead. The `p->len` / `p->tot_len` chained-buffer detail is not modelled: a payload is one byte sequence.
- Interrupt context and the `volatile` flags shared between the button handler and the main loop; the simulator's receive thread, `socket_lock`, `LINK_OK` and `LAST_RX`. Every step is atomic in the model.
- The HTML/CSS page contents. The pages are opaque byte strings; only their byte lengths (2712, 647 and 522) enter the model.
- The onboard LED blink patterns during the mode switch and the retries, and the operational loop after connecting, which only calls `update_leds`.
- The bytes the simulator sends (`send_status`'s packet, the `ACK` to `HELLO`, the status text's formatting), the periodic status sends of the receive loop, and the peer-address tracking. The status text is a parameter; only its `TX: ` log line is modelled. The simulator is assumed `running` throughout, so a reply is never skipped for shutdown.
- Everything pygame: drawing, keyboard events (including the `T` key's simulated packet), physics, capture distance, and POI and obstacle generation.
- `struct.unpack` is a parameter; the slice sizes are exact, so its `struct.error` path cannot occur. The joystick values of a full packet are unpacked by `receive_data` but never used, and are not modelled.
- RoverTelemetry.ParseTelemetry: speed and steering scaling is exact `real` arithmetic, not IEEE double rounding. `float()` accepts `inf`, `nan` and their variants; such non-finite results are outside the model, since the float parser returns only finite reals. The same holds for values `struct.unpack` produces.
- RoverTelemetry.Lower: lowers ASCII letters only, where Python's `lower()` is full Unicode. Membership in {true, 1, yes, on} is unaffected: no non-ASCII character lowers to a string of those letters.
- FormCodec.Store: a value longer than its buffer is truncated. The firmware's `strcpy` writes past the end of the 32/64-byte array, which is undefined behaviour and is not modelled.
- HttpResponder.HandleRecv: a `/save` request without a blank line sends the uninitialised response buffer. The model marks that reply `Undefined` and does not say what bytes go out.
- RoverReceive.Receive: UTF-8 decoding with `errors='ignore'` is an abstract function. The handshake lemmas say which decoding they assume.

## Findings

| source | as written | input that shows it | evidently intended | confidence | as-written member | corrected member |
|---|---|---|---|---|---|---|
| rover_simu/rover_simulation.py:219-220 | NUL bytes are removed from the datagram before decoding, and the binary `RVRC` branch then classifies those same stripped bytes | `RVRC` followed by 20 zero bytes (speed 0.0, mode 0, flags false): 24 bytes sent, 4 classified, so "too small" instead of rover-only, and the structure's values never reach the rover | strip NULs only for the text path and classify the datagram as received | medium; not executed | RoverReceive.Receive, RoverReceive.StrippedRoverPacketTooSmall | RoverReceive.ReceiveRaw, RoverReceive.ReceiveRawKeepsPayloads |
