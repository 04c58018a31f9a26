/** One datagram through the simulator's receive loop: NUL stripping,
    decoding, the HELLO handshake, the debug log, the text telemetry, the
    status reply and its log entry, and the binary packet branch with its
    rover update. Socket I/O and the clock are left out; UTF-8 decoding,
    number parsing, structure unpacking, the status text and whether each
    send goes out are parameters. */
module RoverReceive {
  import opened Util
  import opened RoverLog
  import opened RoverTelemetry
  import opened RoverPackets

  /** `data.decode('utf-8', errors='ignore')`, which never raises. */
  type Decoder = Bytes -> string

  /** The seven values `struct.unpack(ROVER_FORMAT, ...)` yields from a
      20-byte rover structure. */
  datatype RoverRecord = RoverRecord(
    speed: real, steering: real, battery: real, temperature: real,
    mode: int, lights: bool, camera: bool)

  type Unpacker = Bytes -> RoverRecord

  /** What one datagram's handling consults but the model does not compute:
      the decoder, `float()` and `int()`, the structure unpacker, which
      protocol `USAR_PROTOCOLO_SIMPLES` selects, the status text
      `send_status_text` formats for a rover state, whether the n-th
      status send of the datagram goes out without raising, and whether
      the `ACK` to a `HELLO` goes out without raising. */
  datatype Env = Env(
    decode: Decoder, toFloat: FloatParser, toInt: IntParser, unpack: Unpacker,
    textProtocol: bool, status: RoverState -> string, delivered: nat -> bool,
    ackSent: bool)

  const HELLO: string := "HELLO"
  const HELLO_BYTES: Bytes := [72, 69, 76, 76, 79]
  const HELLO_LOG: string := "RX: HELLO (estabelecendo conexão)"
  const RX_PREFIX: string := "RX: "
  const TX_PREFIX: string := "TX: "
  /** How many characters of the status text its log entry keeps. */
  const TX_CUT: nat := 30

  /** The simulator state one datagram can change. */
  datatype Sim = Sim(rover: RoverState, log: seq<string>, connected: bool)

  const InitialSim := Sim(InitialRover, [], false)

  /** The new state; whether the datagram was a handshake; the packet kind
      the binary branch decided, when it ran. */
  datatype Received = Received(sim: Sim, handshake: bool, kind: Option<PacketKind>)

  /** The text of a datagram: NUL bytes dropped, decoded, NUL characters
      dropped. */
  function Message(raw: Bytes, decode: Decoder): (msg: string)
    ensures '\0' !in msg
  {
    RemoveAll(decode(RemoveAll(raw, NUL)), '\0')
  }

  /* ---------------- the status reply ---------------- */

  /** The log line of a status send: `TX: `, the first 30 characters of
      the status text, and `...`. */
  function TxEntry(status: string): (r: string)
    ensures |TX_PREFIX| + |ELLIPSIS| <= |r| <= |TX_PREFIX| + TX_CUT + |ELLIPSIS|
    ensures r[..|TX_PREFIX|] == TX_PREFIX && r[|r| - |ELLIPSIS|..] == ELLIPSIS
    ensures IsPrefix(r[|TX_PREFIX|..|r| - |ELLIPSIS|], status)
    ensures |status| >= TX_CUT ==> |r| == |TX_PREFIX| + TX_CUT + |ELLIPSIS|
    ensures |status| < TX_CUT ==> r[|TX_PREFIX|..|r| - |ELLIPSIS|] == status
  {
    var kept := if |status| <= TX_CUT then status else status[..TX_CUT];
    var r := TX_PREFIX + kept + ELLIPSIS;
    assert r[|TX_PREFIX|..|r| - |ELLIPSIS|] == kept;
    r
  }

  /** The log lines the n-th status send adds: one in the text protocol
      when the send goes out, none otherwise (`send_status` logs nothing,
      and a raising send is caught before its log line). */
  function TxLines(env: Env, n: nat, rover: RoverState): (r: seq<string>)
    ensures |r| <= 1
    ensures |r| == 1 <==> env.textProtocol && env.delivered(n)
    ensures |r| == 1 ==> r[0] == TxEntry(env.status(rover))
  {
    if env.textProtocol && env.delivered(n) then [TxEntry(env.status(rover))] else []
  }

  /** A status send once the Pico's address is known: the rover is
      untouched and the send's log lines are pushed. */
  function SendStatus(sim: Sim, env: Env, n: nat): (r: Sim)
    ensures r.rover == sim.rover && r.connected == sim.connected
    ensures r.log == LogAll(sim.log, TxLines(env, n, sim.rover))
  {
    if env.textProtocol && env.delivered(n) then
      var r := sim.(log := AddToLog(sim.log, TxEntry(env.status(sim.rover))));
      assert [TxEntry(env.status(sim.rover))][1..] == [];
      r
    else sim
  }

  /* ---------------- the binary update ---------------- */

  /** Whether the binary branch unpacks and applies a rover structure. */
  predicate CarriesRover(kind: PacketKind)
  {
    kind == RoverOnly || kind == Full
  }

  /** `update_from_rover_only`: every rover field but the capture flag is
      taken from the structure, speed and steering rescaled as for text. */
  function FromRoverOnly(st: RoverState, rec: RoverRecord): (r: RoverState)
  {
    RoverState(rec.speed / 100.0 * MAX_SPEED, rec.steering / 100.0,
               rec.mode, rec.lights, rec.camera, st.captureRequested)
  }

  /** `update_from_controller`: speed and steering are taken only while the
      rover is in manual mode; mode, lights and camera always. */
  function FromController(st: RoverState, rec: RoverRecord): (r: RoverState)
  {
    var manual := st.mode == MODE_MANUAL;
    RoverState(if manual then rec.speed / 100.0 * MAX_SPEED else st.speed,
               if manual then rec.steering / 100.0 else st.steering,
               rec.mode, rec.lights, rec.camera, st.captureRequested)
  }

  /** The rover after the binary branch has handled `binary`. */
  function BinaryRover(st: RoverState, binary: Bytes, unpack: Unpacker): RoverState
  {
    match ClassifyPacket(binary)
    case RoverOnly => FromRoverOnly(st, unpack(RoverBytes(binary)))
    case Full => FromController(st, unpack(FullBytes(binary).1))
    case _ => st
  }

  /** The binary branch: a rover-only or full packet updates the rover and
      is answered by a second status send; any other kind changes nothing. */
  function BinaryStep(sim: Sim, binary: Bytes, env: Env): (r: Sim)
    ensures r.connected == sim.connected
    ensures r.rover == BinaryRover(sim.rover, binary, env.unpack)
    ensures CarriesRover(ClassifyPacket(binary)) ==>
      r.log == LogAll(sim.log, TxLines(env, 1, r.rover))
    ensures !CarriesRover(ClassifyPacket(binary)) ==> r == sim
  {
    if CarriesRover(ClassifyPacket(binary)) then
      SendStatus(sim.(rover := BinaryRover(sim.rover, binary, env.unpack)), env, 1)
    else sim
  }

  /* ---------------- one datagram ---------------- */

  /** The rover after the text telemetry of a datagram. */
  function TextRover(sim: Sim, msg: string, env: Env): RoverState
  {
    ParseTelemetry(sim.rover, msg, env.toFloat, env.toInt)
  }

  /** Every line a non-handshake datagram logs, oldest first: its `RX: `
      line, the first status send's line, and the second send's line when
      the packet carries a rover structure. */
  function Lines(sim: Sim, msg: string, binary: Bytes, env: Env): seq<string>
  {
    var text := TextRover(sim, msg, env);
    [RX_PREFIX + msg] + TxLines(env, 0, text)
      + (if CarriesRover(ClassifyPacket(binary))
         then TxLines(env, 1, BinaryRover(text, binary, env.unpack)) else [])
  }

  /** A datagram other than the handshake, with text `msg`: logged,
      parsed as telemetry, answered, then handled by the binary branch. */
  function Datagram(sim: Sim, msg: string, binary: Bytes, env: Env): (r: Sim)
    ensures r.connected
    ensures r.rover == BinaryRover(TextRover(sim, msg, env), binary, env.unpack)
    ensures r.log == LogAll(sim.log, Lines(sim, msg, binary, env))
  {
    var text := Sim(TextRover(sim, msg, env), AddToLog(sim.log, RX_PREFIX + msg), true);
    var replied := SendStatus(text, env, 0);
    LogSteps(sim.log, msg, binary, env, text.rover);
    BinaryStep(replied, binary, env)
  }

  /** One datagram, the binary branch classifying `binary`. A `HELLO`
      whose `ACK` send raises reaches the receive loop's outer handler
      before the link is marked or the note is logged, so it changes
      nothing. */
  function ReceiveWith(sim: Sim, raw: Bytes, binary: Bytes, env: Env): (r: Received)
    ensures r.handshake <==> Message(raw, env.decode) == HELLO
    ensures r.sim.connected <==> sim.connected || !r.handshake || env.ackSent
    ensures |sim.log| <= MAX_LOG_ENTRIES ==> |r.sim.log| <= MAX_LOG_ENTRIES
    ensures r.handshake ==>
      && r.sim.rover == sim.rover
      && r.kind.None?
      && r.sim.log == (if env.ackSent then AddToLog(sim.log, HELLO_LOG) else sim.log)
    ensures !r.handshake ==>
      var msg := Message(raw, env.decode);
      && r.kind == Some(ClassifyPacket(binary))
      && r.sim.rover == BinaryRover(TextRover(sim, msg, env), binary, env.unpack)
      && r.sim.log == LogAll(sim.log, Lines(sim, msg, binary, env))
  {
    var msg := Message(raw, env.decode);
    if msg == HELLO then
      if env.ackSent then Received(Sim(sim.rover, AddToLog(sim.log, HELLO_LOG), true), true, None)
      else Received(sim, true, None)
    else
      var r := Datagram(sim, msg, binary, env);
      if |sim.log| <= MAX_LOG_ENTRIES then
        LogAllKeepsNewest(sim.log, Lines(sim, msg, binary, env));
        Received(r, false, Some(ClassifyPacket(binary)))
      else Received(r, false, Some(ClassifyPacket(binary)))
  }

  /** The log of a non-handshake datagram is its lines logged one by one,
      whatever the length of the old log. */
  lemma LogSteps(log: seq<string>, msg: string, binary: Bytes, env: Env, text: RoverState)
    ensures var first := LogAll(AddToLog(log, RX_PREFIX + msg), TxLines(env, 0, text));
      var lines := [RX_PREFIX + msg] + TxLines(env, 0, text)
        + (if CarriesRover(ClassifyPacket(binary))
           then TxLines(env, 1, BinaryRover(text, binary, env.unpack)) else []);
      && (CarriesRover(ClassifyPacket(binary)) ==>
            LogAll(first, TxLines(env, 1, BinaryRover(text, binary, env.unpack))) == LogAll(log, lines))
      && (!CarriesRover(ClassifyPacket(binary)) ==> first == LogAll(log, lines))
  {
    var rx := [RX_PREFIX + msg];
    var t0 := TxLines(env, 0, text);
    LogAllAppend(log, rx, t0);
    assert (rx + t0)[1..] == t0;
    assert LogAll(log, rx) == AddToLog(log, RX_PREFIX + msg) by {
      assert rx[1..] == [];
    }
    if CarriesRover(ClassifyPacket(binary)) {
      LogAllAppend(log, rx + t0, TxLines(env, 1, BinaryRover(text, binary, env.unpack)));
    } else {
      assert rx + t0 + [] == rx + t0;
    }
  }

  /** `receive_data` as written: the binary branch classifies the datagram
      AFTER its NUL bytes were removed for decoding. */
  function Receive(sim: Sim, raw: Bytes, env: Env): (r: Received)
    ensures r.kind.Some? ==> r.kind.value == ClassifyPacket(RemoveAll(raw, NUL))
    ensures r.kind.Some? <==> !r.handshake
  {
    ReceiveWith(sim, raw, RemoveAll(raw, NUL), env)
  }

  /** The classification evidently intended: the binary branch sees the
      datagram as it arrived. It differs from `Receive` only for datagrams
      that hold a NUL byte. */
  function ReceiveRaw(sim: Sim, raw: Bytes, env: Env): (r: Received)
    ensures r.kind.Some? ==> r.kind.value == ClassifyPacket(raw)
    ensures r.kind.Some? <==> !r.handshake
    ensures r.handshake == Receive(sim, raw, env).handshake
    ensures NUL !in raw ==> r == Receive(sim, raw, env)
  {
    ReceiveWith(sim, raw, raw, env)
  }

  /* ---------------- properties ---------------- */

  /** NUL padding around `HELLO` does not stop the handshake. */
  lemma PaddedHelloIsHandshake(sim: Sim, raw: Bytes, pad: Bytes, env: Env)
    requires raw == HELLO_BYTES + pad
    requires forall i | 0 <= i < |pad| :: pad[i] == NUL
    requires env.decode(HELLO_BYTES) == HELLO
    ensures Receive(sim, raw, env).handshake
    ensures Receive(sim, raw, env).sim.rover == sim.rover
  {
    RemoveAllAppend(HELLO_BYTES, pad, NUL);
    RemoveAllCount(pad, NUL);
    assert multiset(pad)[NUL] == |pad| by {
      assert forall i | 0 <= i < |pad| :: pad[i] == NUL;
      MultisetOfConstant(pad, NUL);
    }
    assert RemoveAll(pad, NUL) == [];
    assert RemoveAll(HELLO_BYTES, NUL) == HELLO_BYTES;
    assert RemoveAll(raw, NUL) == HELLO_BYTES;
    assert '\0' !in HELLO;
  }

  lemma {:induction false} MultisetOfConstant(s: Bytes, x: byte)
    requires forall i | 0 <= i < |s| :: s[i] == x
    ensures multiset(s)[x] == |s|
    decreases |s|
  {
    if |s| > 0 {
      MultisetOfConstant(s[..|s| - 1], x);
      assert s == s[..|s| - 1] + [s[|s| - 1]];
    }
  }

  /** A `HELLO` is acknowledged before anything else happens: when the
      `ACK` fails, the state is left exactly as it was; when it goes out,
      only the link flag and the handshake note change. */
  lemma HandshakeNeedsAck(sim: Sim, raw: Bytes, env: Env)
    requires Message(raw, env.decode) == HELLO
    ensures Receive(sim, raw, env).handshake
    ensures !env.ackSent ==> Receive(sim, raw, env).sim == sim
    ensures env.ackSent ==>
      Receive(sim, raw, env).sim == Sim(sim.rover, AddToLog(sim.log, HELLO_LOG), true)
  {
  }

  /** A text datagram that is not key=value telemetry and carries no rover
      structure leaves the rover alone and logs its `RX: ` line followed by
      the status reply's `TX: ` line, when that reply goes out. */
  lemma PlainTextLogged(sim: Sim, raw: Bytes, env: Env)
    requires Message(raw, env.decode) != HELLO
    requires !(',' in Message(raw, env.decode) && '=' in Message(raw, env.decode))
    requires !CarriesRover(ClassifyPacket(RemoveAll(raw, NUL)))
    requires |sim.log| + 2 <= MAX_LOG_ENTRIES
    ensures Receive(sim, raw, env).sim.rover == sim.rover
    ensures Receive(sim, raw, env).sim.log
         == sim.log + [Sanitize(RX_PREFIX + Message(raw, env.decode))]
                    + SanitizeAll(TxLines(env, 0, sim.rover))
  {
    var msg := Message(raw, env.decode);
    var r := Receive(sim, raw, env);
    PlainTextLines(sim, msg, RemoveAll(raw, NUL), env);
    ShortLog(sim.log, RX_PREFIX + msg, TxLines(env, 0, sim.rover), r.sim.log);
  }

  /** For plain text without a rover structure, the text and binary steps
      keep the rover and the lines are the `RX: ` line and the first
      reply's. */
  lemma PlainTextLines(sim: Sim, msg: string, binary: Bytes, env: Env)
    requires !(',' in msg && '=' in msg)
    requires !CarriesRover(ClassifyPacket(binary))
    ensures BinaryRover(TextRover(sim, msg, env), binary, env.unpack) == sim.rover
    ensures Lines(sim, msg, binary, env) == [RX_PREFIX + msg] + TxLines(env, 0, sim.rover)
  {
    assert TextRover(sim, msg, env) == sim.rover;
  }

  /** Logging one line and at most one more onto a log with room for both
      drops nothing. */
  lemma ShortLog(log: seq<string>, line: string, more: seq<string>, logged: seq<string>)
    requires |log| + 2 <= MAX_LOG_ENTRIES && |more| <= 1
    requires logged == LogAll(log, [line] + more)
    ensures logged == log + [Sanitize(line)] + SanitizeAll(more)
  {
    LogAllShort(log, [line] + more);
    SanitizeAllPrepend(line, more);
    Regroup(log, Sanitize(line), SanitizeAll(more), logged);
  }

  lemma Regroup<T>(front: seq<T>, x: T, back: seq<T>, whole: seq<T>)
    requires whole == front + ([x] + back)
    ensures whole == front + [x] + back
  {
  }

  /** Onto an empty log, a short plain text datagram answered in the text
      protocol leaves exactly two lines: its `RX: ` line and the reply's
      `TX: ` line. */
  lemma TextReplyOnEmptyLog(sim: Sim, raw: Bytes, env: Env)
    requires sim.log == []
    requires Message(raw, env.decode) != HELLO
    requires !(',' in Message(raw, env.decode) && '=' in Message(raw, env.decode))
    requires |raw| < HEADER_SIZE
    requires |Message(raw, env.decode)| <= MAX_MESSAGE_LEN - |RX_PREFIX|
    requires env.textProtocol && env.delivered(0)
    ensures Receive(sim, raw, env).sim.log
         == [RX_PREFIX + Message(raw, env.decode), Sanitize(TxEntry(env.status(sim.rover)))]
  {
    var msg := Message(raw, env.decode);
    var line := RX_PREFIX + msg;
    var tx := TxEntry(env.status(sim.rover));
    ShortDatagramHasNoHeader(raw);
    PlainTextLogged(sim, raw, env);
    RxLineKept(msg);
    assert TxLines(env, 0, sim.rover) == [tx];
    ReplyPair(Receive(sim, raw, env).sim.log, line, tx);
  }

  lemma ReplyPair(log: seq<string>, line: string, tx: string)
    requires Sanitize(line) == line
    requires log == [] + [Sanitize(line)] + SanitizeAll([tx])
    ensures log == [line, Sanitize(tx)]
  {
    SanitizeAllCons([tx]);
    assert [tx][1..] == [];
  }

  lemma ShortDatagramHasNoHeader(raw: Bytes)
    requires |raw| < HEADER_SIZE
    ensures ClassifyPacket(RemoveAll(raw, NUL)) == NoHeader
  {
  }

  /** The `RX: ` line of a NUL-free text short enough is stored as is. */
  lemma RxLineKept(msg: string)
    requires '\0' !in msg && |msg| <= MAX_MESSAGE_LEN - |RX_PREFIX|
    ensures Sanitize(RX_PREFIX + msg) == RX_PREFIX + msg
  {
    var line := RX_PREFIX + msg;
    forall i | 0 <= i < |line| ensures line[i] != '\0' {
      if i < |RX_PREFIX| { assert line[i] == RX_PREFIX[i]; } else { assert line[i] == msg[i - |RX_PREFIX|]; }
    }
  }

  /** The datagram `abc` onto an empty log, answered in the text protocol. */
  lemma TextReplyExample(sim: Sim, raw: Bytes, env: Env, msg: string)
    requires sim.log == [] && |raw| < HEADER_SIZE
    requires msg == "abc" && Message(raw, env.decode) == msg
    requires env.textProtocol && env.delivered(0)
    ensures Receive(sim, raw, env).sim.log == [RX_PREFIX + msg, Sanitize(TxEntry(env.status(sim.rover)))]
  {
    assert |msg| != |HELLO| && ',' !in msg;
    TextReplyOnEmptyLog(sim, raw, env);
  }

  /** In the binary protocol the replies log nothing: a datagram adds only
      its `RX: ` line. */
  lemma BinaryProtocolLogsReceiptOnly(sim: Sim, raw: Bytes, binary: Bytes, env: Env)
    requires !env.textProtocol
    requires Message(raw, env.decode) != HELLO
    ensures ReceiveWith(sim, raw, binary, env).sim.log
         == AddToLog(sim.log, RX_PREFIX + Message(raw, env.decode))
  {
    var msg := Message(raw, env.decode);
    var lines := [RX_PREFIX + msg];
    assert Lines(sim, msg, binary, env) == lines;
    assert lines[1..] == [];
  }

  /** A rover-only packet overrides every rover field the text may have
      set, with the structure's values; only a capture request from the
      text survives. */
  lemma RoverOnlyOverridesText(sim: Sim, raw: Bytes, binary: Bytes, env: Env)
    requires Message(raw, env.decode) != HELLO
    requires ClassifyPacket(binary) == RoverOnly
    ensures var r := ReceiveWith(sim, raw, binary, env).sim.rover;
      var rec := env.unpack(binary[HEADER_SIZE..HEADER_SIZE + ROVER_SIZE]);
      && r.speed == rec.speed / 100.0 * MAX_SPEED
      && r.steering == rec.steering / 100.0
      && r.mode == rec.mode && r.lights == rec.lights && r.camera == rec.camera
      && r.captureRequested == TextRover(sim, Message(raw, env.decode), env).captureRequested
  {
  }

  /** A full packet drives speed and steering only when the rover is in
      manual mode after the text update; mode, lights and camera always
      follow the structure. */
  lemma FullPacketDrivesOnlyInManual(sim: Sim, raw: Bytes, binary: Bytes, env: Env)
    requires Message(raw, env.decode) != HELLO
    requires ClassifyPacket(binary) == Full
    ensures var text := TextRover(sim, Message(raw, env.decode), env);
      var r := ReceiveWith(sim, raw, binary, env).sim.rover;
      var rec := env.unpack(binary[HEADER_SIZE + JOYSTICK_SIZE..HEADER_SIZE + JOYSTICK_SIZE + ROVER_SIZE]);
      && (text.mode == MODE_MANUAL ==>
            r.speed == rec.speed / 100.0 * MAX_SPEED && r.steering == rec.steering / 100.0)
      && (text.mode != MODE_MANUAL ==> r.speed == text.speed && r.steering == text.steering)
      && r.mode == rec.mode && r.lights == rec.lights && r.camera == rec.camera
      && r.captureRequested == text.captureRequested
  {
  }

  /* ---------------- the NUL-stripping discrepancy ---------------- */

  /** A rover structure whose fields are all zero: every float 0.0, mode 0,
      both flags false. */
  const ZERO_ROVER: Bytes := seq(ROVER_SIZE, _ => NUL)

  /** As written, a rover-only test packet whose structure holds a zero byte
      is shortened by the NUL stripping, reported as too small, and its
      values are never applied: the rover is what the text made of it. */
  lemma StrippedRoverPacketTooSmall(sim: Sim, payload: Bytes, env: Env)
    requires |payload| == ROVER_SIZE && NUL in payload
    requires Message(HEADER + payload, env.decode) != HELLO
    ensures Receive(sim, HEADER + payload, env).kind == Some(TooSmall)
    ensures Receive(sim, HEADER + payload, env).sim.rover
         == TextRover(sim, Message(HEADER + payload, env.decode), env)
  {
    RemoveAllAppend(HEADER, payload, NUL);
    assert RemoveAll(HEADER, NUL) == HEADER;
    RemoveAllCount(payload, NUL);
    var stripped := RemoveAll(HEADER + payload, NUL);
    assert stripped[..HEADER_SIZE] == HEADER;
  }

  /** The all-zero structure is such a packet: as written it is too small
      and ignored; classified as received it is rover-only and its values
      reach the rover. */
  lemma ZeroRoverPacketTooSmall(sim: Sim, env: Env)
    requires Message(HEADER + ZERO_ROVER, env.decode) != HELLO
    ensures Receive(sim, HEADER + ZERO_ROVER, env).kind == Some(TooSmall)
    ensures ReceiveRaw(sim, HEADER + ZERO_ROVER, env).kind == Some(RoverOnly)
    ensures ReceiveRaw(sim, HEADER + ZERO_ROVER, env).sim.rover.mode == env.unpack(ZERO_ROVER).mode
  {
    assert ZERO_ROVER[0] == NUL;
    StrippedRoverPacketTooSmall(sim, ZERO_ROVER, env);
    assert (HEADER + ZERO_ROVER)[HEADER_SIZE..HEADER_SIZE + ROVER_SIZE] == ZERO_ROVER;
  }

  /** Classifying the datagram as it arrived, every rover-sized payload
      after `RVRC` is a rover-only packet whose structure reaches the rover,
      and every full-sized one is full, whatever bytes they hold. */
  lemma ReceiveRawKeepsPayloads(sim: Sim, payload: Bytes, env: Env)
    requires Message(HEADER + payload, env.decode) != HELLO
    ensures |payload| == ROVER_SIZE ==>
      && ReceiveRaw(sim, HEADER + payload, env).kind == Some(RoverOnly)
      && ReceiveRaw(sim, HEADER + payload, env).sim.rover.mode == env.unpack(payload).mode
    ensures ROVER_SIZE <= |payload| < JOYSTICK_SIZE + ROVER_SIZE
         ==> ReceiveRaw(sim, HEADER + payload, env).kind == Some(RoverOnly)
    ensures |payload| >= JOYSTICK_SIZE + ROVER_SIZE
         ==> ReceiveRaw(sim, HEADER + payload, env).kind == Some(Full)
  {
    assert (HEADER + payload)[..HEADER_SIZE] == HEADER;
    if |payload| == ROVER_SIZE {
      assert (HEADER + payload)[HEADER_SIZE..HEADER_SIZE + ROVER_SIZE] == payload;
    }
  }
}
