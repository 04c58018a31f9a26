/** The status LEDs of the portal firmware: the blink scheduler run from the
    main loop (32-bit millisecond clock, wrap-around arithmetic) and the
    debounced button B handler that switches blinking off. */
module Leds {

  const TWO_32: int := 0x1_0000_0000

  newtype uint32 = x: int | 0 <= x < 0x1_0000_0000
  newtype uint8 = x: int | 0 <= x < 256

  const LED_BLUE_PIN: nat := 12
  const LED_GREEN_PIN: nat := 11
  const BUTTON_B_PIN: nat := 6

  /** `led_mode` values: 0 off, 1 access point (blue), 2 connected (green). */
  const MODE_OFF: uint8 := 0
  const MODE_AP: uint8 := 1
  const MODE_WIFI: uint8 := 2

  const BLINK_INTERVAL_AP: uint32 := 500
  const BLINK_INTERVAL_WIFI: uint32 := 200

  /** Debounce window of button B, in microseconds (200 ms). */
  const DEBOUNCE_DELAY_US: int := 200 * 1000

  /** A `gpio_put(pin, level)` the firmware performs. */
  datatype GpioWrite = GpioWrite(pin: nat, level: bool)

  /** The LED globals: `led_blink_enabled`, `led_mode`, `led_state`,
      `last_led_time`. */
  datatype LedState = LedState(blinkEnabled: bool, mode: uint8, on: bool, lastToggleMs: uint32)

  /** The globals' initial values. */
  const BootLeds := LedState(true, MODE_OFF, false, 0)

  /** `current_time - last_led_time` on `uint32`: the time since the last
      toggle, modulo 2^32. */
  function Elapsed(now: uint32, last: uint32): (d: int)
    ensures 0 <= d < TWO_32
    ensures (last as int + d) % TWO_32 == now as int
  {
    (now as int - last as int) % TWO_32
  }

  /** Half-period of the blink: 500 ms in access-point mode, 200 ms in
      every other mode. */
  function Interval(mode: uint8): (r: uint32)
    ensures mode == MODE_AP <==> r == BLINK_INTERVAL_AP
    ensures mode != MODE_AP <==> r == BLINK_INTERVAL_WIFI
  {
    if mode == MODE_AP then BLINK_INTERVAL_AP else BLINK_INTERVAL_WIFI
  }

  /** The pin driven in `mode`, if any. */
  function PinWrite(mode: uint8, level: bool): (w: seq<GpioWrite>)
    ensures |w| <= 1
    ensures mode == MODE_AP ==> w == [GpioWrite(LED_BLUE_PIN, level)]
    ensures mode == MODE_WIFI ==> w == [GpioWrite(LED_GREEN_PIN, level)]
    ensures mode != MODE_AP && mode != MODE_WIFI ==> w == []
  {
    if mode == MODE_AP then [GpioWrite(LED_BLUE_PIN, level)]
    else if mode == MODE_WIFI then [GpioWrite(LED_GREEN_PIN, level)]
    else []
  }

  datatype LedStep = LedStep(leds: LedState, writes: seq<GpioWrite>)

  /** `update_leds`, with the clock reading `now` as a parameter. */
  function UpdateLeds(s: LedState, now: uint32): (r: LedStep)
    ensures !s.blinkEnabled ==> r == LedStep(s, [])
    ensures s.blinkEnabled ==> (r.leds.on != s.on <==> Elapsed(now, s.lastToggleMs) >= Interval(s.mode) as int)
    ensures r.leds.blinkEnabled == s.blinkEnabled && r.leds.mode == s.mode
    ensures r.leds.on == s.on ==> r == LedStep(s, [])
    ensures r.leds.on != s.on ==> r.leds.lastToggleMs == now && r.writes == PinWrite(s.mode, r.leds.on)
  {
    if !s.blinkEnabled then LedStep(s, [])
    else if Elapsed(now, s.lastToggleMs) >= Interval(s.mode) as int then
      var on := !s.on;
      LedStep(s.(on := on, lastToggleMs := now), PinWrite(s.mode, on))
    else LedStep(s, [])
  }

  /** Calling the scheduler twice at the same instant toggles at most once. */
  lemma UpdateLedsSameInstant(s: LedState, now: uint32)
    ensures UpdateLeds(UpdateLeds(s, now).leds, now) == LedStep(UpdateLeds(s, now).leds, [])
  {
    var s1 := UpdateLeds(s, now).leds;
    if s1.on != s.on {
      assert Elapsed(now, now) == 0;
    }
  }

  /** The 32-bit clock wrapping past zero does not stall the blink: 500 ms
      after a toggle at 0xFFFFFF00 the clock reads 244 and the LED toggles. */
  lemma UpdateLedsAcrossWrap(s: LedState)
    requires s.blinkEnabled && s.mode == MODE_AP && s.lastToggleMs == 0xFFFF_FF00
    ensures Elapsed(244, s.lastToggleMs) == 500
    ensures UpdateLeds(s, 244).leds.on == !s.on
    ensures UpdateLeds(s, 243).leds == s
  {
  }

  /* ---------------- button B ---------------- */

  datatype ButtonState = ButtonState(leds: LedState, lastPressUs: int)

  datatype ButtonStep = ButtonStep(state: ButtonState, writes: seq<GpioWrite>)

  /** The debounce decision of `gpio_callback`: a press on button B counts
      only when at least 200 ms have passed since the last counted press. */
  predicate PressAccepted(s: ButtonState, gpio: nat, nowUs: int)
  {
    gpio == BUTTON_B_PIN && nowUs - s.lastPressUs >= DEBOUNCE_DELAY_US
  }

  /** `gpio_callback` as a step function; the microsecond clock is a
      parameter. */
  function ButtonPress(s: ButtonState, gpio: nat, nowUs: int): (r: ButtonStep)
    ensures !PressAccepted(s, gpio, nowUs) ==> r == ButtonStep(s, [])
    ensures PressAccepted(s, gpio, nowUs) ==>
      && r.state.lastPressUs == nowUs
      && r.state.leds == s.leds.(blinkEnabled := false)
      && r.writes == (if s.leds.blinkEnabled then PinWrite(s.leds.mode, false) else [])
    ensures !r.state.leds.blinkEnabled || r.state.leds == s.leds
  {
    if gpio != BUTTON_B_PIN then ButtonStep(s, [])
    else if nowUs - s.lastPressUs < DEBOUNCE_DELAY_US then ButtonStep(s, [])
    else if s.leds.blinkEnabled then
      ButtonStep(ButtonState(s.leds.(blinkEnabled := false), nowUs), PinWrite(s.leds.mode, false))
    else ButtonStep(ButtonState(s.leds, nowUs), [])
  }

  /** Applies a sequence of presses, each a pin and a clock reading. */
  function ButtonPresses(s: ButtonState, presses: seq<(nat, int)>): ButtonState
    decreases |presses|
  {
    if |presses| == 0 then s
    else ButtonPresses(ButtonPress(s, presses[0].0, presses[0].1).state, presses[1..])
  }

  /** Presses never switch blinking back on, and with a clock that does not
      run backwards the counted-press time never decreases. */
  lemma {:induction false} ButtonPressesMonotone(s: ButtonState, presses: seq<(nat, int)>)
    requires forall i | 0 <= i < |presses| :: presses[i].1 >= s.lastPressUs
    requires forall i, j | 0 <= i < j < |presses| :: presses[i].1 <= presses[j].1
    ensures !s.leds.blinkEnabled ==> !ButtonPresses(s, presses).leds.blinkEnabled
    ensures ButtonPresses(s, presses).lastPressUs >= s.lastPressUs
    decreases |presses|
  {
    if |presses| > 0 {
      var s1 := ButtonPress(s, presses[0].0, presses[0].1).state;
      assert forall i | 1 <= i < |presses| :: presses[0].1 <= presses[i].1;
      ButtonPressesMonotone(s1, presses[1..]);
    }
  }
}
