/** The provisioning sequence of the portal firmware's `main`: bring up the
    radio and the access point, start the HTTP listener, poll until a
    credential record has been received, switch the radio to client mode, and
    try to join the network at most three times before halting. The radio,
    the network stack and the clock are oracles given as parameters. */
module Provisioning {
  import opened Util
  import opened FormCodec
  import opened Leds
  import opened HttpResponder

  /** Connection attempts before the firmware gives up. */
  const MAX_ATTEMPTS: nat := 3

  /** `cyw43_arch_wifi_connect_timeout_ms(ssid, password, ...)` for the
      given 0-based call number: true when the join succeeds. */
  type Radio = (Bytes, Bytes, nat) -> bool

  /** Whether the two start-up steps that can fail succeeded:
      `cyw43_arch_init` and the creation/binding of the port-80 listener. */
  datatype Boot = Boot(radioInitOk: bool, serverOk: bool)

  /** One pass of the waiting loop: the payloads the receive callback sees
      during `cyw43_arch_poll` (`None` for a peer close), then the
      millisecond clock read by `update_leds`. */
  datatype PollRound = PollRound(arrivals: seq<Option<Bytes>>, nowMs: uint32)

  datatype Phase =
    | InitFailed            // `cyw43_arch_init` failed: `main` returns -1
    | ServerFailed          // the HTTP listener could not be started
    | AwaitingCredentials   // the rounds ran out before credentials arrived
    | Connected             // joined the network; the operational loop follows
    | Halted                // three failed joins: the terminal error blink

  datatype Run = Run(
    phase: Phase,
    portal: Portal,
    replies: seq<Reply>,
    roundsUsed: nat,
    connectCalls: nat,
    attempts: nat)

  /** The portal right after `cyw43_arch_init`: empty record, no client yet,
      blinking disabled. */
  const StartPortal := Portal(EmptyConfig, false, BootLeds.(blinkEnabled := false))

  /* ---------------- waiting for credentials ---------------- */

  datatype RoundResult = RoundResult(portal: Portal, replies: seq<Reply>)

  /** The receive callbacks of one poll, in arrival order. */
  function Deliver(st: Portal, pages: Pages, arrivals: seq<Option<Bytes>>): (r: RoundResult)
    requires FitsBuffers(st.config)
    ensures FitsBuffers(r.portal.config)
    ensures |r.replies| == |arrivals|
    ensures st.config.received ==> r.portal.config.received
    decreases |arrivals|
  {
    if |arrivals| == 0 then RoundResult(st, [])
    else
      var step := HandleRecv(st, pages, arrivals[0]);
      var rest := Deliver(step.portal, pages, arrivals[1..]);
      RoundResult(rest.portal, [step.reply] + rest.replies)
  }

  /** One iteration of the waiting loop: poll, then update the LEDs. */
  function Round(st: Portal, pages: Pages, round: PollRound): (r: RoundResult)
    requires FitsBuffers(st.config)
    ensures FitsBuffers(r.portal.config)
    ensures st.config.received ==> r.portal.config.received
  {
    var d := Deliver(st, pages, round.arrivals);
    RoundResult(d.portal.(leds := UpdateLeds(d.portal.leds, round.nowMs).leds), d.replies)
  }

  /** Reference: the portal after running every given round, with no
      early exit. */
  function RunRounds(st: Portal, pages: Pages, rounds: seq<PollRound>): (p: Portal)
    requires FitsBuffers(st.config)
    ensures FitsBuffers(p.config)
    decreases |rounds|
  {
    if |rounds| == 0 then st
    else RunRounds(Round(st, pages, rounds[0]).portal, pages, rounds[1..])
  }

  datatype AwaitResult = AwaitResult(portal: Portal, replies: seq<Reply>, used: nat)

  /** `while (!new_wifi_config.received) { poll; update_leds; sleep }` over
      the rounds the environment supplies. */
  function Await(st: Portal, pages: Pages, rounds: seq<PollRound>): (r: AwaitResult)
    requires FitsBuffers(st.config)
    ensures FitsBuffers(r.portal.config)
    ensures r.used <= |rounds|
    ensures r.portal.config.received || r.used == |rounds|
    decreases |rounds|
  {
    if st.config.received || |rounds| == 0 then AwaitResult(st, [], 0)
    else
      var first := Round(st, pages, rounds[0]);
      var rest := Await(first.portal, pages, rounds[1..]);
      AwaitResult(rest.portal, first.replies + rest.replies, rest.used + 1)
  }

  /** The waiting loop is the reference run cut at the FIRST round after
      which the record is received: it runs no round beyond that one, and
      rounds after it are never looked at. */
  lemma {:induction false} AwaitStopsAtFirstReceived(st: Portal, pages: Pages, rounds: seq<PollRound>)
    requires FitsBuffers(st.config)
    requires !st.config.received
    ensures var r := Await(st, pages, rounds);
      && r.portal == RunRounds(st, pages, rounds[..r.used])
      && forall j | 0 <= j < r.used :: !RunRounds(st, pages, rounds[..j]).config.received
    decreases |rounds|
  {
    var r := Await(st, pages, rounds);
    if |rounds| > 0 {
      var p1 := Round(st, pages, rounds[0]).portal;
      var rest := Await(p1, pages, rounds[1..]);
      assert r.used == rest.used + 1;
      if p1.config.received {
        assert rest.used == 0;
        assert rounds[..1][1..] == [];
      } else {
        AwaitStopsAtFirstReceived(p1, pages, rounds[1..]);
        assert rounds[..r.used][1..] == rounds[1..][..rest.used];
        forall j | 0 <= j < r.used
          ensures !RunRounds(st, pages, rounds[..j]).config.received
        {
          if j > 0 {
            assert rounds[..j][1..] == rounds[1..][..j - 1];
          }
        }
      }
    }
  }

  /* ---------------- joining the network ---------------- */

  /** The retry loop around `cyw43_arch_wifi_connect_timeout_ms`: a failed
      join increments the attempt counter, and the third failure halts. */
  method ConnectWithRetry(radio: Radio, ssid: Bytes, password: Bytes)
    returns (connected: bool, attempts: nat, calls: nat)
    ensures calls <= MAX_ATTEMPTS
    ensures connected <==> exists k | 0 <= k < MAX_ATTEMPTS :: radio(ssid, password, k)
    ensures forall i | 0 <= i < attempts :: !radio(ssid, password, i)
    ensures connected ==> calls == attempts + 1 && radio(ssid, password, attempts)
    ensures !connected ==> calls == MAX_ATTEMPTS && attempts == MAX_ATTEMPTS
  {
    attempts := 0;
    calls := 1;
    var ok := radio(ssid, password, 0);
    while !ok
      invariant calls == attempts + 1 <= MAX_ATTEMPTS
      invariant ok == radio(ssid, password, attempts)
      invariant forall i | 0 <= i < attempts :: !radio(ssid, password, i)
      decreases MAX_ATTEMPTS - attempts
    {
      attempts := attempts + 1;
      if attempts >= MAX_ATTEMPTS {
        connected := false;
        return;
      }
      ok := radio(ssid, password, calls);
      calls := calls + 1;
    }
    connected := true;
  }

  /* ---------------- the whole sequence ---------------- */

  /** `main` up to the operational loop. `connectedAtMs` is the clock read
      when the green blink is armed. */
  method Provision(boot: Boot, pages: Pages, rounds: seq<PollRound>, radio: Radio, connectedAtMs: uint32)
    returns (run: Run)
    ensures run.connectCalls > 0 ==> boot.radioInitOk && boot.serverOk && run.portal.config.received
    ensures !boot.radioInitOk ==> run.phase == InitFailed && run.connectCalls == 0
    ensures boot.radioInitOk && !boot.serverOk ==> run.phase == ServerFailed && run.connectCalls == 0
    ensures run.phase == AwaitingCredentials ==>
      run.connectCalls == 0 && !run.portal.config.received && run.roundsUsed == |rounds|
    ensures run.phase == Halted ==>
      && run.connectCalls == MAX_ATTEMPTS && run.attempts == MAX_ATTEMPTS
      && forall i | 0 <= i < MAX_ATTEMPTS :: !radio(run.portal.config.ssid, run.portal.config.password, i)
    ensures run.phase == Connected ==>
      && run.attempts < MAX_ATTEMPTS && run.connectCalls == run.attempts + 1
      && radio(run.portal.config.ssid, run.portal.config.password, run.attempts)
      && (forall i | 0 <= i < run.attempts :: !radio(run.portal.config.ssid, run.portal.config.password, i))
      && run.portal.leds == LedState(true, MODE_WIFI, run.portal.leds.on, connectedAtMs)
    ensures run.phase == Halted ==> !run.portal.leds.blinkEnabled
    ensures run.roundsUsed <= |rounds|
    ensures run.portal.config.received <==> run.phase in {Connected, Halted}
    ensures run.phase in {Connected, Halted} ==>
      run.portal.config == RunRounds(StartPortal, pages, rounds[..run.roundsUsed]).config
  {
    if !boot.radioInitOk {
      return Run(InitFailed, Portal(EmptyConfig, false, BootLeds), [], 0, 0, 0);
    }
    if !boot.serverOk {
      return Run(ServerFailed, StartPortal, [], 0, 0, 0);
    }
    var waited := Await(StartPortal, pages, rounds);
    if !waited.portal.config.received {
      return Run(AwaitingCredentials, waited.portal, waited.replies, waited.used, 0, 0);
    }
    AwaitStopsAtFirstReceived(StartPortal, pages, rounds);
    // mode switch: the blue blink stops before the access point goes down
    var portal := waited.portal.(leds := waited.portal.leds.(blinkEnabled := false));
    var cfg := portal.config;
    var connected, attempts, calls := ConnectWithRetry(radio, cfg.ssid, cfg.password);
    if connected {
      portal := portal.(leds := portal.leds.(mode := MODE_WIFI, blinkEnabled := true, lastToggleMs := connectedAtMs));
      run := Run(Connected, portal, waited.replies, waited.used, calls, attempts);
    } else {
      run := Run(Halted, portal, waited.replies, waited.used, calls, attempts);
    }
  }

  /** A radio that never joins. */
  function AlwaysFails(): Radio
  {
    (ssid: Bytes, password: Bytes, n: nat) => false
  }

  /** With a radio that never joins, exactly three connects are made and the
      controller halts; there is never a fourth. */
  method ProvisionAgainstDeadRadio(pages: Pages, rounds: seq<PollRound>, t: uint32)
    returns (run: Run)
    ensures run.phase != Connected
    ensures run.portal.config.received ==> run.phase == Halted && run.connectCalls == MAX_ATTEMPTS
    ensures !run.portal.config.received ==> run.connectCalls == 0
  {
    run := Provision(Boot(true, true), pages, rounds, AlwaysFails(), t);
  }

  /** Delivering two arrivals is handling one after the other. */
  lemma DeliverPair(st: Portal, pages: Pages, a: Option<Bytes>, b: Option<Bytes>)
    requires FitsBuffers(st.config)
    ensures Deliver(st, pages, [a, b]).portal
         == HandleRecv(HandleRecv(st, pages, a).portal, pages, b).portal
  {
    var arrivals := [a, b];
    var first := HandleRecv(st, pages, a);
    assert arrivals[1..] == [b];
    var second := HandleRecv(first.portal, pages, b);
    assert Deliver(first.portal, pages, [b]).portal == second.portal by {
      assert [b][1..] == [];
    }
  }

  /** Two `/save` submissions handled in the SAME poll both reach the parser
      (the loop only checks `received` between polls): the later one's
      credentials are the ones used to connect. */
  lemma LaterSaveInSamePollWins(st: Portal, pages: Pages,
                                h1: Bytes, s1: Bytes, p1: Bytes,
                                h2: Bytes, s2: Bytes, p2: Bytes)
    requires FitsBuffers(st.config)
    requires SaveHead(h1) && SaveHead(h2)
    requires Transportable(s1, SSID_BUFFER) && Transportable(p1, PASSWORD_BUFFER)
    requires Transportable(s2, SSID_BUFFER) && Transportable(p2, PASSWORD_BUFFER)
    requires |SaveRequest(h1, s1, p1)| < REQUEST_BUFFER && |SaveRequest(h2, s2, p2)| < REQUEST_BUFFER
    ensures Deliver(st, pages, [Some(SaveRequest(h1, s1, p1)), Some(SaveRequest(h2, s2, p2))]).portal.config
         == WifiConfig(s2, p2, true)
  {
    var a := Some(SaveRequest(h1, s1, p1));
    var b := Some(SaveRequest(h2, s2, p2));
    DeliverPair(st, pages, a, b);
    var first := HandleRecv(st, pages, a).portal;
    SaveRequestCaptures(first, pages, h2, s2, p2);
  }
}
