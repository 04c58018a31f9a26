/** The HTTP side of the provisioning portal: what the receive callback does
    with one TCP payload. The payload is cut to the 1024-byte request buffer,
    classified by literal prefix (`POST /save`, then `POST /led_off`, else the
    setup page), the form body after the first blank line of a `/save`
    request is parsed, and a `200 OK` response carrying one of three fixed
    pages with its exact byte length is produced. */
module HttpResponder {
  import opened Util
  import opened FormCodec
  import opened Leds

  /** Size of the `request` buffer, terminating NUL included. */
  const REQUEST_BUFFER: nat := 1024
  /** Size of the `response` buffer. */
  const RESPONSE_BUFFER: nat := 4096

  const SAVE_PREFIX: Bytes := Ascii("POST /save")
  const LED_OFF_PREFIX: Bytes := Ascii("POST /led_off")
  const BLANK_LINE: Bytes := Ascii("\r\n\r\n")

  /** Everything before the decimal `Content-Length` value. */
  const HEAD: Bytes :=
    Ascii("HTTP/1.1 200 OK\r\n") + Ascii("Content-Type: text/html\r\n") + Ascii("Content-Length: ")
  /** Everything between the `Content-Length` value and the page. */
  const TAIL: Bytes := Ascii("\r\nConnection: close\r\n\r\n")

  /** The three page bodies, as the UTF-8 bytes of their C literals. */
  datatype Pages = Pages(setup: Bytes, success: Bytes, ledOff: Bytes)

  /** Byte lengths of the firmware's pages (they hold multi-byte UTF-8, so
      these exceed their character counts 2705, 637 and 518). */
  const SETUP_HTML_BYTES: nat := 2712
  const SUCCESS_HTML_BYTES: nat := 647
  const LED_OFF_HTML_BYTES: nat := 522

  /** Pages are C string literals: no embedded NUL. */
  predicate PagesAreCStrings(p: Pages)
  {
    NUL !in p.setup && NUL !in p.success && NUL !in p.ledOff
  }

  /** The pages the firmware ships, known here only by their lengths. */
  predicate SourcePages(p: Pages)
  {
    && PagesAreCStrings(p)
    && |p.setup| == SETUP_HTML_BYTES
    && |p.success| == SUCCESS_HTML_BYTES
    && |p.ledOff| == LED_OFF_HTML_BYTES
  }

  /* ---------------- request buffer ---------------- */

  /** The C string left in `request` by `strncpy` of at most 1023 bytes and
      the explicit terminator: the payload up to the first NUL, cut to 1023
      bytes. */
  function CutRequest(payload: Bytes): (r: Bytes)
    ensures |r| < REQUEST_BUFFER
    ensures NUL !in r
    ensures IsPrefix(r, payload)
    ensures |r| == |payload| || |r| == REQUEST_BUFFER - 1 || payload[|r|] == NUL
  {
    var n := if |payload| < REQUEST_BUFFER then |payload| else REQUEST_BUFFER - 1;
    var copied := payload[..n];
    var k := IndexOf(copied, NUL);
    assert payload[..n][..k] == payload[..k];
    copied[..k]
  }

  /* ---------------- routing ---------------- */

  datatype Route = Save | LedOff | Setup

  /** Prefix tests in the order `tcp_server_recv` makes them: `/save` before `/led_off`. */
  function Classify(req: Bytes): (r: Route)
    ensures r == Save <==> IsPrefix(SAVE_PREFIX, req)
    ensures r == LedOff <==> IsPrefix(LED_OFF_PREFIX, req)
    ensures r == Setup <==> !IsPrefix(SAVE_PREFIX, req) && !IsPrefix(LED_OFF_PREFIX, req)
  {
    PrefixesExclusive(req);
    if IsPrefix(SAVE_PREFIX, req) then Save
    else if IsPrefix(LED_OFF_PREFIX, req) then LedOff
    else Setup
  }

  /** No request starts with both prefixes (they differ at byte 6), so the
      order of the two tests never matters. */
  lemma PrefixesExclusive(req: Bytes)
    ensures !(IsPrefix(SAVE_PREFIX, req) && IsPrefix(LED_OFF_PREFIX, req))
  {
    if IsPrefix(SAVE_PREFIX, req) && |LED_OFF_PREFIX| <= |req| {
      assert req[6] == SAVE_PREFIX[6];
      assert req[..|LED_OFF_PREFIX|][6] != LED_OFF_PREFIX[6];
    }
  }

  function PageFor(route: Route, pages: Pages): Bytes
  {
    match route
    case Save => pages.success
    case LedOff => pages.ledOff
    case Setup => pages.setup
  }

  /* ---------------- responses ---------------- */

  /** The `sprintf` of the response: status line, headers with the page's
      byte length in decimal, blank line, page. */
  function Response(page: Bytes): Bytes
  {
    HEAD + Decimal(|page|) + TAIL + page
  }

  /** A client's reading of a response: check the fixed header text, read the
      decimal `Content-Length`, and take exactly that many body bytes. */
  function ParseResponse(resp: Bytes): Option<Bytes>
  {
    if !IsPrefix(HEAD, resp) then None
    else
      var rest := resp[|HEAD|..];
      var k := DigitRun(rest);
      if k == 0 then None
      else
        var tail := rest[k..];
        if !IsPrefix(TAIL, tail) then None
        else
          var body := tail[|TAIL|..];
          if DigitsValue(rest[..k]) != |body| then None else Some(body)
  }

  /** Every response is read back as exactly its page: the declared
      `Content-Length` is the page's byte length. */
  lemma ResponseRoundTrip(page: Bytes)
    ensures ParseResponse(Response(page)) == Some(page)
  {
    var ds := Decimal(|page|);
    var resp := Response(page);
    assert resp == HEAD + (ds + (TAIL + page));
    var rest := resp[|HEAD|..];
    assert rest == ds + (TAIL + page);
    assert !IsDigit((TAIL + page)[0]) by {
      assert (TAIL + page)[0] == TAIL[0];
    }
    DigitRunOfDigitsThen(ds, TAIL + page);
    assert rest[..|ds|] == ds;
    assert rest[|ds|..] == TAIL + page;
    DecimalValue(|page|);
  }

  lemma DecimalAtMostFour(n: nat)
    requires n < 10000
    ensures |Decimal(n)| <= 4
  {
    if n >= 10 {
      assert Decimal(n) == Decimal(n / 10) + [Digit(n % 10)];
      if n / 10 >= 10 {
        assert Decimal(n / 10) == Decimal(n / 100) + [Digit(n / 10 % 10)];
        if n / 100 >= 10 {
          assert Decimal(n / 100) == Decimal(n / 1000) + [Digit(n / 100 % 10)];
          assert n / 1000 < 10;
        }
      }
    }
  }

  /** The firmware's pages and their responses fit the 4096-byte response
      buffer, with room for the terminating NUL. */
  lemma SourceResponsesFit(pages: Pages)
    requires SourcePages(pages)
    ensures |Response(pages.setup)| < RESPONSE_BUFFER
    ensures |Response(pages.success)| < RESPONSE_BUFFER
    ensures |Response(pages.ledOff)| < RESPONSE_BUFFER
  {
    DecimalAtMostFour(|pages.setup|);
    DecimalAtMostFour(|pages.success|);
    DecimalAtMostFour(|pages.ledOff|);
  }

  /* ---------------- the receive callback ---------------- */

  /** What the portal keeps between callbacks: the credential record, the
      once-only "client connected" flag, and the LED globals. */
  datatype Portal = Portal(config: WifiConfig, clientConnected: bool, leds: LedState)

  /** What goes back on the connection: nothing (peer closed), a response,
      or the unwritten response buffer of a `/save` with no blank line. */
  datatype Reply = PeerClosed | Sent(bytes: Bytes) | Undefined

  datatype RecvStep = RecvStep(portal: Portal, reply: Reply, writes: seq<GpioWrite>)

  /** The request contains a blank line. */
  predicate HasBlankLine(req: Bytes)
  {
    exists k | 0 <= k <= |req| :: OccursAt(BLANK_LINE, req, k)
  }

  /** The first connection turns the blue blink on (and the green LED off). */
  function FirstContact(st: Portal): (Portal, seq<GpioWrite>)
  {
    if st.clientConnected then (st, [])
    else
      (st.(clientConnected := true, leds := st.leds.(mode := MODE_AP, blinkEnabled := true)),
       [GpioWrite(LED_GREEN_PIN, false)])
  }

  /** `tcp_server_recv`: `None` is the peer-closed notification. */
  function HandleRecv(st: Portal, pages: Pages, payload: Option<Bytes>): (r: RecvStep)
    requires FitsBuffers(st.config)
    ensures FitsBuffers(r.portal.config)
    ensures payload.None? ==> r == RecvStep(st, PeerClosed, [])
    ensures payload.Some? ==> r.portal.clientConnected
    ensures payload.Some? ==>
      var req := CutRequest(payload.value);
      && (r.reply == Undefined <==> IsPrefix(SAVE_PREFIX, req) && !HasBlankLine(req))
      && !r.reply.PeerClosed?
      && (r.reply.Sent? ==> r.reply.bytes == Response(PageFor(Classify(req), pages)))
    ensures r.portal.config != st.config ==> r.portal.config.received
  {
    match payload
    case None => RecvStep(st, PeerClosed, [])
    case Some(data) =>
      var req := CutRequest(data);
      var (st1, w1) := FirstContact(st);
      match Classify(req)
      case Save =>
        (match Find(BLANK_LINE, req)
         case None => RecvStep(st1, Undefined, w1)
         case Some(k) =>
           var body := req[k + |BLANK_LINE|..];
           assert NUL !in body;
           ResponseRoundTrip(pages.success);
           RecvStep(st1.(config := ParseForm(st1.config, body)), Sent(Response(pages.success)), w1))
      case LedOff =>
        ResponseRoundTrip(pages.ledOff);
        RecvStep(st1.(leds := st1.leds.(blinkEnabled := false)), Sent(Response(pages.ledOff)),
                 w1 + [GpioWrite(LED_BLUE_PIN, false), GpioWrite(LED_GREEN_PIN, false)])
      case Setup =>
        ResponseRoundTrip(pages.setup);
        RecvStep(st1, Sent(Response(pages.setup)), w1)
  }

  /** A client reading any response the handler sends recovers exactly the
      page for the request's route. */
  lemma HandleRecvParses(st: Portal, pages: Pages, data: Bytes)
    requires FitsBuffers(st.config)
    ensures var r := HandleRecv(st, pages, Some(data));
      r.reply.Sent? ==> ParseResponse(r.reply.bytes) == Some(PageFor(Classify(CutRequest(data)), pages))
  {
    ResponseRoundTrip(PageFor(Classify(CutRequest(data)), pages));
  }

  /** The credential record changes only on a `/save` request with a blank
      line, and then it is the form parse of the bytes after the FIRST blank
      line; nothing else in the portal touches it. */
  lemma HandleRecvConfig(st: Portal, pages: Pages, data: Bytes)
    requires FitsBuffers(st.config)
    ensures var req := CutRequest(data);
      var r := HandleRecv(st, pages, Some(data));
      if IsPrefix(SAVE_PREFIX, req) && HasBlankLine(req) then
        exists k | 0 <= k <= |req| && OccursAt(BLANK_LINE, req, k) ::
          && (forall j | 0 <= j < k :: !OccursAt(BLANK_LINE, req, j))
          && NUL !in req[k + |BLANK_LINE|..]
          && r.portal.config == ParseForm(st.config, req[k + |BLANK_LINE|..])
      else r.portal.config == st.config
  {
    var req := CutRequest(data);
    if IsPrefix(SAVE_PREFIX, req) && HasBlankLine(req) {
      var k0 :| 0 <= k0 <= |req| && OccursAt(BLANK_LINE, req, k0);
      var k := Find(BLANK_LINE, req).value;
      var body := req[k + |BLANK_LINE|..];
      assert NUL !in body;
    }
  }

  /** The LED side effects of one request: the first request switches to
      access-point mode with the blue blink on, `/led_off` then switches
      blinking off (the mode stays), and nothing else changes the LED
      globals. */
  lemma HandleRecvLeds(st: Portal, pages: Pages, data: Bytes)
    requires FitsBuffers(st.config)
    ensures var r := HandleRecv(st, pages, Some(data));
      var route := Classify(CutRequest(data));
      && (route == LedOff ==> !r.portal.leds.blinkEnabled)
      && (route == LedOff ==>
            r.portal.leds.mode == (if st.clientConnected then st.leds.mode else MODE_AP))
      && (route != LedOff && !st.clientConnected ==>
            r.portal.leds == st.leds.(mode := MODE_AP, blinkEnabled := true))
      && (route != LedOff && st.clientConnected ==> r.portal.leds == st.leds)
      && r.portal.leds.on == st.leds.on
      && r.portal.leds.lastToggleMs == st.leds.lastToggleMs
  {
  }

  /** A request that matches neither prefix gets the setup page with its
      exact length, however long or malformed it is. */
  lemma DefaultRouting(st: Portal, pages: Pages, data: Bytes)
    requires FitsBuffers(st.config)
    requires !IsPrefix(SAVE_PREFIX, CutRequest(data)) && !IsPrefix(LED_OFF_PREFIX, CutRequest(data))
    ensures HandleRecv(st, pages, Some(data)).reply == Sent(Response(pages.setup))
    ensures HandleRecv(st, pages, Some(data)).portal.config == st.config
  {
  }

  /** Only the first 1023 bytes of a payload decide what happens to it. */
  lemma OnlyPrefixMatters(st: Portal, pages: Pages, a: Bytes, b: Bytes)
    requires FitsBuffers(st.config)
    requires |a| >= REQUEST_BUFFER - 1 && |b| >= REQUEST_BUFFER - 1
    requires a[..REQUEST_BUFFER - 1] == b[..REQUEST_BUFFER - 1]
    ensures HandleRecv(st, pages, Some(a)) == HandleRecv(st, pages, Some(b))
  {
    assert CutRequest(a) == CutRequest(b);
  }

  /** A browser's `/save` submission: request line and headers `head`, the
      blank line, then the encoded form. */
  function SaveRequest(head: Bytes, ssid: Bytes, password: Bytes): Bytes
  {
    head + BLANK_LINE + EncodeForm(ssid, password)
  }

  /** The headers of a well-formed `/save` request: they start with the
      prefix, hold no NUL, and the blank line that follows them is the
      first one. */
  predicate SaveHead(head: Bytes)
  {
    && IsPrefix(SAVE_PREFIX, head)
    && NUL !in head
    && forall j | 0 <= j < |head| :: !OccursAt(BLANK_LINE, head + BLANK_LINE, j)
  }

  lemma CutShortRequest(req: Bytes)
    requires |req| < REQUEST_BUFFER && NUL !in req
    ensures CutRequest(req) == req
  {
  }

  lemma FindAfterHead(head: Bytes, body: Bytes)
    requires forall j | 0 <= j < |head| :: !OccursAt(BLANK_LINE, head + BLANK_LINE, j)
    ensures Find(BLANK_LINE, head + BLANK_LINE + body) == Some(|head|)
  {
    var hb := head + BLANK_LINE;
    var req := hb + body;
    var k := |head|;
    assert req[k..k + |BLANK_LINE|] == BLANK_LINE;
    assert OccursAt(BLANK_LINE, req, k);
    forall j | 0 <= j < k
      ensures !OccursAt(BLANK_LINE, req, j)
    {
      assert !OccursAt(BLANK_LINE, hb, j);
      assert j + |BLANK_LINE| <= |hb|;
      assert hb[j..j + |BLANK_LINE|] == req[j..j + |BLANK_LINE|];
    }

  }

  /** End to end: a `/save` request that fits the buffer stores exactly the
      submitted credentials, marks them received, and answers with the
      success page. */
  lemma SaveRequestCaptures(st: Portal, pages: Pages, head: Bytes, ssid: Bytes, password: Bytes)
    requires FitsBuffers(st.config)
    requires SaveHead(head)
    requires Transportable(ssid, SSID_BUFFER) && Transportable(password, PASSWORD_BUFFER)
    requires |SaveRequest(head, ssid, password)| < REQUEST_BUFFER
    ensures HandleRecv(st, pages, Some(SaveRequest(head, ssid, password))).portal.config
         == WifiConfig(ssid, password, true)
    ensures HandleRecv(st, pages, Some(SaveRequest(head, ssid, password))).reply
         == Sent(Response(pages.success))
  {
    var body := EncodeForm(ssid, password);
    var req := SaveRequest(head, ssid, password);
    FormRoundTrip(st.config, ssid, password);
    assert NUL !in req by {
      assert NUL !in BLANK_LINE;
      assert req == head + BLANK_LINE + body;
    }
    CutShortRequest(req);
    assert IsPrefix(SAVE_PREFIX, req) by {
      assert req[..|SAVE_PREFIX|] == head[..|SAVE_PREFIX|];
    }
    FindAfterHead(head, body);
    assert req[|head| + |BLANK_LINE|..] == body;
  }
}
